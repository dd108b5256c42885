/**
 Calls that do overlap: which schedules of statements still leave the minors in agreement, and which
 pairs of writes can be driven apart by some schedule.
 */
module DriverOverlap {
  import opened DriverModel
  import opened DriverInterleaving
  import opened DriverSerial

  // ---------- what a minor shows ----------

  /** The first k bytes of minor m are those of v. */
  ghost predicate Has(mem: Mem, m: nat, k: nat, v: seq<byte>) {
    m < |mem.bufs| && k <= |v| && k <= |mem.bufs[m]| && mem.bufs[m][..k] == v[..k]
  }

  /** Minor m shows a reader exactly v. */
  ghost predicate Shows(mem: Mem, m: nat, v: seq<byte>) {
    Has(mem, m, |v|, v) && m < |mem.sizes| && mem.sizes[m] == |v| && m < |mem.ready| && mem.ready[m]
  }

  ghost predicate AllShow(mem: Mem, v: seq<byte>, minors: nat) { forall j | 0 <= j < minors :: Shows(mem, j, v) }

  /** All minors show a reader the same. */
  ghost predicate InAgreement(mem: Mem, minors: nat)
    requires WfMem(mem, minors)
  {
    forall i, j | 0 <= i < minors && 0 <= j < minors :: SameView(mem, i, j, minors)
  }

  lemma AllShowAgree(mem: Mem, v: seq<byte>, minors: nat)
    requires WfMem(mem, minors) && AllShow(mem, v, minors)
    ensures InAgreement(mem, minors)
  {
    forall i, j | 0 <= i < minors && 0 <= j < minors
      ensures SameView(mem, i, j, minors)
    {
      assert Shows(mem, i, v) && Shows(mem, j, v);
    }
  }

  /** What a write of data at pos on minor m, starting from mem, makes its own minor show. */
  function Written(mem: Mem, m: nat, pos: nat, data: seq<byte>): (v: seq<byte>)
    requires m < |mem.bufs| && |mem.bufs[m]| == MY_BUFFER_SIZE && pos < MY_BUFFER_SIZE
    ensures |v| == pos + Room(pos, |data|) <= MY_BUFFER_SIZE
  {
    mem.bufs[m][..pos] + data[..Room(pos, |data|)]
  }

  // ---------- writes that spell the same bytes ----------

  /** The call is at the head of pass i of a broadcast of v, which the minors before i show already. */
  ghost predicate Sent(mem: Mem, m: nat, i: nat, tmp: seq<byte>, v: seq<byte>) {
    Shows(mem, m, v) && |v| <= |tmp| && tmp[..|v|] == v && forall j: nat | j < i :: Shows(mem, j, v)
  }

  /** Wherever the write is, what it has done and what it will do is to spell v. */
  ghost predicate Spells(mem: Mem, c: Call, v: seq<byte>, minors: nat)
    requires WfCall(c, minors)
  {
    match c
    case CheckSpace(m, pos, data) => pos < MY_BUFFER_SIZE && SpellsFrom(mem, m, pos, data[..Room(pos, |data|)], v)
    case CopyIn(m, pos, data, len) => SpellsFrom(mem, m, pos, data[..len], v)
    case SetOwnSize(m, pos, len) => pos + len == |v| && Has(mem, m, |v|, v)
    case RaiseOwn(m, _) => Has(mem, m, |v|, v) && m < |mem.sizes| && mem.sizes[m] == |v|
    case LoadForTmp(m, _) => Shows(mem, m, v)
    case FillTmp(m, _, n) => Shows(mem, m, v) && n == |v|
    case LoopHead(m, _, i, tmp) => Sent(mem, m, i, tmp, v)
    case LoadForCopy(m, _, i, tmp) => Sent(mem, m, i, tmp, v)
    case CopyOut(m, _, i, tmp, n) => Sent(mem, m, i, tmp, v) && n == |v|
    case LoadForSize(m, _, i, tmp) => Sent(mem, m, i, tmp, v) && Has(mem, i, |v|, v)
    case SetPeerSize(m, _, i, tmp, n) => Sent(mem, m, i, tmp, v) && Has(mem, i, |v|, v) && n == |v|
    case RaisePeer(m, _, i, tmp) =>
      Sent(mem, m, i, tmp, v) && Has(mem, i, |v|, v) && i < |mem.sizes| && mem.sizes[i] == |v|
    case Returned(_) => AllShow(mem, v, minors)
    case _ => false
  }

  /** The bytes in front of pos and the part to be written there make up v. */
  ghost predicate SpellsFrom(mem: Mem, m: nat, pos: nat, part: seq<byte>, v: seq<byte>) {
    pos + |part| == |v| <= MY_BUFFER_SIZE && Has(mem, m, pos, v) && part == v[pos..]
  }

  /** Whatever of v was there before is there after. */
  ghost predicate Keeps(mem: Mem, mem': Mem, v: seq<byte>) {
    && |mem'.bufs| == |mem.bufs| && |mem'.sizes| == |mem.sizes| && |mem'.ready| == |mem.ready|
    && (forall m: nat, k: nat :: Has(mem, m, k, v) ==> Has(mem', m, k, v))
    && (forall m | 0 <= m < |mem.sizes| && mem.sizes[m] == |v| :: mem'.sizes[m] == |v|)
    && (forall m | 0 <= m < |mem.ready| && mem.ready[m] :: mem'.ready[m])
  }

  /** Overwriting with bytes of v keeps v, and extends it if it starts where v was there up to. */
  lemma PutKeeps(mem: Mem, m: nat, at: nat, v: seq<byte>, minors: nat)
    requires WfMem(mem, minors) && m < minors && at <= |v| <= MY_BUFFER_SIZE
    ensures Keeps(mem, Put(mem, m, at, v[at..]), v)
    ensures Has(mem, m, at, v) ==> Has(Put(mem, m, at, v[at..]), m, |v|, v)
  {
    var mem' := Put(mem, m, at, v[at..]);
    forall j: nat, k: nat | Has(mem, j, k, v)
      ensures Has(mem', j, k, v)
    {
      assert forall x | 0 <= x < k :: mem.bufs[j][..k][x] == v[..k][x];
    }
    if Has(mem, m, at, v) {
      assert forall x | 0 <= x < at :: mem.bufs[m][..at][x] == v[..at][x];
    }
  }

  lemma SpellsKept(mem: Mem, mem': Mem, c: Call, v: seq<byte>, minors: nat)
    requires WfCall(c, minors) && Spells(mem, c, v, minors) && Keeps(mem, mem', v)
    ensures Spells(mem', c, v, minors)
  {
    forall j | Shows(mem, j, v)
      ensures Shows(mem', j, v)
    {
    }
  }

  /** One statement of the call keeps v, and the call goes on spelling it. */
  ghost predicate SpellsOn(mem: Mem, c: Call, v: seq<byte>, minors: nat)
    requires WfMem(mem, minors) && WfCall(c, minors)
  {
    var (mem', c') := Exec(mem, c, Complete, minors);
    Keeps(mem, mem', v) && WfCall(c', minors) && Spells(mem', c', v, minors)
  }

  lemma CopiesSpellOn(mem: Mem, c: Call, v: seq<byte>, minors: nat)
    requires WfMem(mem, minors) && WfCall(c, minors) && Spells(mem, c, v, minors) && (c.CopyIn? || c.CopyOut?)
    ensures SpellsOn(mem, c, v, minors)
  {
    if c.CopyIn? {
      PutKeeps(mem, c.m, c.pos, v, minors);
    } else {
      PutKeeps(mem, c.i, 0, v, minors);
      assert v[0..] == v && Has(mem, c.i, 0, v);
      SpellsKept(mem, Put(mem, c.i, 0, v), c, v, minors);
    }
  }

  lemma StoresSpellOn(mem: Mem, c: Call, v: seq<byte>, minors: nat)
    requires WfMem(mem, minors) && WfCall(c, minors) && Spells(mem, c, v, minors) && (c.SetPeerSize? || c.RaisePeer?)
    ensures SpellsOn(mem, c, v, minors)
  {
    if c.SetPeerSize? {
      SpellsKept(mem, mem.(sizes := mem.sizes[c.i := c.n]), c, v, minors);
    } else {
      SpellsKept(mem, mem.(ready := mem.ready[c.i := true]), c, v, minors);
    }
  }

  lemma FillSpellsOn(mem: Mem, c: Call, v: seq<byte>, minors: nat)
    requires WfMem(mem, minors) && WfCall(c, minors) && Spells(mem, c, v, minors) && c.FillTmp?
    ensures SpellsOn(mem, c, v, minors)
  {
    assert mem.bufs[c.m][..c.n] == v;
  }

  lemma OwnStoresSpellOn(mem: Mem, c: Call, v: seq<byte>, minors: nat)
    requires WfMem(mem, minors) && WfCall(c, minors) && Spells(mem, c, v, minors)
    requires c.CheckSpace? || c.SetOwnSize? || c.RaiseOwn? || c.LoadForTmp?
    ensures SpellsOn(mem, c, v, minors)
  {
  }

  lemma LoadsSpellOn(mem: Mem, c: Call, v: seq<byte>, minors: nat)
    requires WfMem(mem, minors) && WfCall(c, minors) && Spells(mem, c, v, minors)
    requires c.LoopHead? || c.LoadForCopy? || c.LoadForSize? || c.Returned?
    ensures SpellsOn(mem, c, v, minors)
  {
  }

  lemma ExecSpells(mem: Mem, c: Call, v: seq<byte>, minors: nat)
    requires WfMem(mem, minors) && WfCall(c, minors) && Spells(mem, c, v, minors)
    ensures SpellsOn(mem, c, v, minors)
  {
    if c.CopyIn? || c.CopyOut? {
      CopiesSpellOn(mem, c, v, minors);
    } else if c.SetPeerSize? || c.RaisePeer? {
      StoresSpellOn(mem, c, v, minors);
    } else if c.FillTmp? {
      FillSpellsOn(mem, c, v, minors);
    } else if c.LoopHead? || c.LoadForCopy? || c.LoadForSize? || c.Returned? {
      LoadsSpellOn(mem, c, v, minors);
    } else {
      OwnStoresSpellOn(mem, c, v, minors);
    }
  }

  /** The calls of T spell v, and no other call is in progress. */
  ghost predicate Spellers(s: System, T: set<Tid>, v: seq<byte>, minors: nat) {
    && WfSystem(s, minors) && T <= s.calls.Keys
    && forall t | t in s.calls :: if t in T then Spells(s.mem, s.calls[t], v, minors) else s.calls[t].Returned?
  }

  /** Statements only, and every user copy comes out. */
  predicate Plain(moves: seq<Move>) { forall k | 0 <= k < |moves| :: moves[k].Advance? && moves[k].copy.Complete? }

  lemma SpellersStep(s: System, T: set<Tid>, v: seq<byte>, move: Move, minors: nat)
    requires Spellers(s, T, v, minors) && move.Advance? && move.copy.Complete?
    ensures Spellers(Go(s, move, minors), T, v, minors)
  {
    var r := Go(s, move, minors);
    if move.tid in T {
      ExecSpells(s.mem, s.calls[move.tid], v, minors);
      forall t | t in s.calls && t in T && t != move.tid
        ensures Spells(r.mem, r.calls[t], v, minors)
      {
        SpellsKept(s.mem, r.mem, s.calls[t], v, minors);
      }
    } else if move.tid in s.calls {
      assert r.mem == s.mem && r.calls == s.calls;
    }
  }

  lemma {:induction false} SpellersStay(s: System, T: set<Tid>, v: seq<byte>, moves: seq<Move>, minors: nat)
    requires Spellers(s, T, v, minors) && Plain(moves)
    ensures Spellers(GoAll(s, moves, minors), T, v, minors)
    decreases |moves|
  {
    if moves == [] {
    } else {
      assert moves[0].Advance? && moves[0].copy.Complete?;
      SpellersStep(s, T, v, moves[0], minors);
      SpellersStay(Go(s, moves[0], minors), T, v, moves[1..], minors);
    }
  }

  /** Write calls that are about to begin. */
  ghost predicate Begun(s: System, T: set<Tid>, minors: nat) {
    && WfSystem(s, minors) && T <= s.calls.Keys
    && (forall t | t in s.calls && t !in T :: s.calls[t].Returned?)
    && (forall t | t in T :: s.calls[t].CheckSpace? && s.calls[t].pos < MY_BUFFER_SIZE)
  }

  /** What the write of thread t would make its own minor show if it were alone. */
  function Aim(s: System, t: Tid, minors: nat): seq<byte>
    requires WfSystem(s, minors) && t in s.calls && s.calls[t].CheckSpace? && s.calls[t].pos < MY_BUFFER_SIZE
  {
    Written(s.mem, s.calls[t].m, s.calls[t].pos, s.calls[t].data)
  }

  /**
   Any number of writes on any minors, overlapping in any way: if each, alone, would make its minor show
   the same bytes v, then once all have returned every minor shows v.
   */
  lemma EqualWritesAgree(s: System, T: set<Tid>, v: seq<byte>, moves: seq<Move>, minors: nat)
    requires Begun(s, T, minors) && T != {} && (forall t | t in T :: Aim(s, t, minors) == v) && Plain(moves)
    ensures var r := GoAll(s, moves, minors); AllReturned(r) ==> AllShow(r.mem, v, minors)
  {
    forall t | t in T
      ensures Spells(s.mem, s.calls[t], v, minors)
    {
      var c := s.calls[t];
      assert Aim(s, t, minors) == v;
      assert v[..c.pos] == s.mem.bufs[c.m][..c.pos] && v[c.pos..] == c.data[..Room(c.pos, |c.data|)];
    }
    SpellersStay(s, T, v, moves, minors);
    var t :| t in T;
    var r := GoAll(s, moves, minors);
    if AllReturned(r) {
      assert Spells(r.mem, r.calls[t], v, minors);
    }
  }

  // ---------- one undisturbed broadcast ----------

  /** Until the moves are over nobody but thread tid changes memory, and tid starts nothing new. */
  ghost predicate Quiet(s: System, tid: Tid, moves: seq<Move>, minors: nat)
    requires WfSystem(s, minors)
    decreases |moves|
  {
    moves == [] ||
    (var next := Go(s, moves[0], minors);
     && (moves[0].tid == tid ==> moves[0].Advance?)
     && (moves[0].tid != tid ==> next.mem == s.mem)
     && Quiet(next, tid, moves[1..], minors))
  }

  lemma {:induction false} QuietSpells(s: System, tid: Tid, v: seq<byte>, moves: seq<Move>, minors: nat)
    requires WfSystem(s, minors) && Quiet(s, tid, moves, minors) && tid in s.calls
    requires !Undecided(s.calls[tid]) && Spells(s.mem, s.calls[tid], v, minors)
    ensures var r := GoAll(s, moves, minors); tid in r.calls && Spells(r.mem, r.calls[tid], v, minors)
    decreases |moves|
  {
    if moves == [] {
    } else {
      var next := Go(s, moves[0], minors);
      if moves[0].tid == tid {
        DecidedIgnoresCopy(s.mem, s.calls[tid], moves[0].copy, minors);
        ExecSpells(s.mem, s.calls[tid], v, minors);
      } else {
        assert next.calls[tid] == s.calls[tid];
      }
      QuietSpells(next, tid, v, moves[1..], minors);
    }
  }

  /**
   Whatever calls overlapped before, on whatever minors: a write that has the memory to itself from its
   broadcast to its return leaves all minors showing what its own minor showed when the broadcast began.
   Meanwhile the other calls may advance through statements that change no memory.
   */
  lemma QuietBroadcastAgrees(s: System, tid: Tid, moves: seq<Move>, minors: nat)
    requires WfSystem(s, minors) && Quiet(s, tid, moves, minors)
    requires tid in s.calls && s.calls[tid].LoadForTmp? && s.mem.ready[s.calls[tid].m]
    ensures var r := GoAll(s, moves, minors);
            var m := s.calls[tid].m;
            && tid in r.calls
            && (r.calls[tid].Returned? ==> AllShow(r.mem, s.mem.bufs[m][..s.mem.sizes[m]], minors) && InAgreement(r.mem, minors))
  {
    var m := s.calls[tid].m;
    var v := s.mem.bufs[m][..s.mem.sizes[m]];
    assert v[..|v|] == v;
    QuietSpells(s, tid, v, moves, minors);
    var r := GoAll(s, moves, minors);
    if r.calls[tid].Returned? {
      AllShowAgree(r.mem, v, minors);
    }
  }

  // ---------- schedules that drive two writes apart ----------

  /** The moves are statements only and lead from s to r. */
  ghost predicate Leads(s: System, moves: seq<Move>, r: System, minors: nat) {
    WfSystem(s, minors) && Plain(moves) && GoAll(s, moves, minors) == r
  }

  lemma {:induction false} SoloIsPlain(tid: Tid, k: nat)
    ensures Plain(Solo(tid, k))
    decreases k
  {
    if k == 0 {
    } else {
      SoloIsPlain(tid, k - 1);
    }
  }

  /** After the moves thread tid runs alone and gets to b. */
  lemma ThenTurn(s: System, moves: seq<Move>, r: System, tid: Tid, b: (Mem, Call), k: nat, minors: nat)
    returns (more: seq<Move>, next: System)
    requires Leads(s, moves, r, minors) && tid in r.calls && Reaches((r.mem, r.calls[tid]), b, k, minors)
    ensures next == System(b.0, r.calls[tid := b.1]) && Leads(s, more, next, minors)
  {
    SoloIsAlone(r, tid, k, minors);
    SoloIsPlain(tid, k);
    GoAllConcat(s, moves, Solo(tid, k), minors);
    more := moves + Solo(tid, k);
    next := System(b.0, r.calls[tid := b.1]);
  }

  /** A write alone, up to its broadcast of what it wrote. */
  lemma UpToBroadcast(mem: Mem, m: nat, pos: nat, data: seq<byte>, minors: nat) returns (c: Call, k: nat)
    requires WfMem(mem, minors) && m < minors && pos < MY_BUFFER_SIZE
    ensures var mem' := Filled(mem, m, pos, data[..Room(pos, |data|)]);
            && Reaches((mem, CheckSpace(m, pos, data)), (mem', c), k, minors)
            && Broadcasting(mem', c, m, 0, Written(mem, m, pos, data), minors)
  {
    var len := Room(pos, |data|);
    var mem' := Filled(mem, m, pos, data[..len]);
    var j := WriteFills(mem, m, pos, data, minors);
    c, k := TmpFilled(mem', m, len, minors);
    assert mem'.bufs[m][..mem'.sizes[m]] == Written(mem, m, pos, data);
    ReachesTwice((mem, CheckSpace(m, pos, data)), (mem', LoadForTmp(m, len)), (mem', c), j, k, minors);
    k := j + k;
  }

  /** A write alone from beginning to end. */
  lemma WholeWrite(mem: Mem, m: nat, pos: nat, data: seq<byte>, minors: nat) returns (mem': Mem, ret: Ret, k: nat)
    requires WfMem(mem, minors) && m < minors && pos < MY_BUFFER_SIZE
    ensures Reaches((mem, CheckSpace(m, pos, data)), (mem', Returned(ret)), k, minors)
    ensures WfMem(mem', minors) && AllShow(mem', Written(mem, m, pos, data), minors)
  {
    var v := Written(mem, m, pos, data);
    var mem1 := Filled(mem, m, pos, data[..Room(pos, |data|)]);
    var c, j := UpToBroadcast(mem, m, pos, data, minors);
    k := RestOfBroadcast(mem1, c, m, 0, v, minors);
    mem', ret := AllPassed(mem1, m, 0, v, minors), Value(c.len);
    ReachesTwice((mem, CheckSpace(m, pos, data)), (mem1, c), (mem', Returned(ret)), j, k, minors);
    k := j + k;
    assert mem1.bufs[m][..|v|] == v;
    forall i | 0 <= i < minors
      ensures Shows(mem', i, v)
    {
      assert v[..|v|] == v;
    }
  }

  /** All calls have returned and two minors show different contents. */
  ghost predicate Apart(r: System, minors: nat) {
    WfSystem(r, minors) && AllReturned(r) && !InAgreement(r.mem, minors)
  }

  lemma SizesApart(r: System, i: nat, j: nat, minors: nat)
    requires WfSystem(r, minors) && AllReturned(r) && i < minors && j < minors && r.mem.sizes[i] != r.mem.sizes[j]
    ensures Apart(r, minors)
  {
    assert !SameView(r.mem, i, j, minors);
  }

  /** A minor other than m. */
  function PeerOf(m: nat): nat { if m == 0 then 1 else 0 }

  /** The calls of R run one after the other, each from its beginning to its end. */
  lemma {:induction false} WholeAll(s: System, moves: seq<Move>, r: System, R: set<Tid>, n: nat, minors: nat)
    returns (more: seq<Move>, next: System)
    requires Leads(s, moves, r, minors) && WfSystem(r, minors) && R <= r.calls.Keys
    requires forall t | t in R :: r.calls[t].CheckSpace? && r.calls[t].pos < MY_BUFFER_SIZE
    ensures Leads(s, more, next, minors) && WfSystem(next, minors) && next.calls.Keys == r.calls.Keys
    ensures forall t | t in r.calls :: if t in R then next.calls[t].Returned? else next.calls[t] == r.calls[t]
    ensures (forall t | t in R :: EndOf(r.calls[t]) == n) ==>
              forall m | 0 <= m < minors && r.mem.sizes[m] == n :: next.mem.sizes[m] == n
    decreases R
  {
    if R == {} {
      more, next := moves, r;
    } else {
      var t :| t in R;
      var c := r.calls[t];
      var mem, ret, k := WholeWrite(r.mem, c.m, c.pos, c.data, minors);
      var between: System;
      more, between := ThenTurn(s, moves, r, t, (mem, Returned(ret)), k, minors);
      SizesWritten(mem, Written(r.mem, c.m, c.pos, c.data), minors);
      more, next := WholeAll(s, more, between, R - {t}, n, minors);
    }
  }

  lemma SizesWritten(mem: Mem, v: seq<byte>, minors: nat)
    requires WfMem(mem, minors) && AllShow(mem, v, minors)
    ensures forall m | 0 <= m < minors :: mem.sizes[m] == |v|
  {
    forall m | 0 <= m < minors
      ensures mem.sizes[m] == |v|
    {
      assert Shows(mem, m, v);
    }
  }

  /** Where a write that is about to begin ends: the size it leaves. */
  function EndOf(c: Call): nat
    requires c.CheckSpace? && c.pos < MY_BUFFER_SIZE
  {
    c.pos + Room(c.pos, |c.data|)
  }

  /** The call has its minor's bytes v in its local array and is at the first pass of its loop. */
  ghost predicate Armed(c: Call, m: nat, v: seq<byte>) {
    c.LoopHead? && c.m == m && c.i == 0 && |v| <= |c.tmp| && c.tmp[..|v|] == v
  }

  /** f and then g fill their local arrays. */
  lemma BothFilled(s: System, f: Tid, g: Tid, minors: nat) returns (moves: seq<Move>, r: System, c: Call, d: Call)
    requires WfSystem(s, minors) && f in s.calls && g in s.calls && f != g
    requires s.calls[f].CheckSpace? && s.calls[f].pos < MY_BUFFER_SIZE
    requires s.calls[g].CheckSpace? && s.calls[g].pos < MY_BUFFER_SIZE
    requires s.calls[f].m != s.calls[g].m || s.calls[g].pos <= s.calls[f].pos
    requires |Aim(s, f, minors)| == |Aim(s, g, minors)|
    ensures Leads(s, moves, r, minors) && WfSystem(r, minors) && r.calls == s.calls[f := c][g := d]
    ensures Armed(c, s.calls[f].m, Aim(s, f, minors)) && Armed(d, s.calls[g].m, Aim(s, g, minors))
    ensures r.mem.sizes[s.calls[f].m] == r.mem.sizes[s.calls[g].m] == |Aim(s, f, minors)|
  {
    var w, x := s.calls[f], s.calls[g];
    var mem1 := Filled(s.mem, w.m, w.pos, w.data[..Room(w.pos, |w.data|)]);
    var k;
    c, k := UpToBroadcast(s.mem, w.m, w.pos, w.data, minors);
    moves, r := ThenTurn(s, [], s, f, (mem1, c), k, minors);
    assert Written(mem1, x.m, x.pos, x.data) == Aim(s, g, minors);
    var mem2 := Filled(mem1, x.m, x.pos, x.data[..Room(x.pos, |x.data|)]);
    d, k := UpToBroadcast(mem1, x.m, x.pos, x.data, minors);
    moves, r := ThenTurn(s, moves, r, g, (mem2, d), k, minors);
  }

  /** f and then g fill their local arrays, and then all other calls of T run from beginning to end. */
  lemma BothArmed(s: System, T: set<Tid>, f: Tid, g: Tid, minors: nat) returns (moves: seq<Move>, r: System)
    requires Begun(s, T, minors) && f in T && g in T && f != g
    requires s.calls[f].m != s.calls[g].m || s.calls[g].pos <= s.calls[f].pos
    requires forall t | t in T :: |Aim(s, t, minors)| == |Aim(s, f, minors)|
    ensures Leads(s, moves, r, minors) && WfSystem(r, minors) && r.calls.Keys == s.calls.Keys
    ensures Armed(r.calls[f], s.calls[f].m, Aim(s, f, minors)) && Armed(r.calls[g], s.calls[g].m, Aim(s, g, minors))
    ensures forall t | t in r.calls && t != f && t != g :: r.calls[t].Returned?
    ensures r.mem.sizes[s.calls[f].m] == r.mem.sizes[s.calls[g].m] == |Aim(s, f, minors)|
  {
    var c, d;
    moves, r, c, d := BothFilled(s, f, g, minors);
    assert forall t | t in T :: EndOf(s.calls[t]) == |Aim(s, t, minors)|;
    moves, r := WholeAll(s, moves, r, T - {f, g}, |Aim(s, f, minors)|, minors);
  }

  /** Two armed calls send, first g and then f: the peers of f's minor show what f sends; f's own minor
      shows what g sent, or if that is g's minor too, what it showed before. */
  lemma BothSend(s: System, moves: seq<Move>, r: System, f: Tid, v: seq<byte>, g: Tid, y: seq<byte>, minors: nat)
    returns (more: seq<Move>, next: System)
    requires Leads(s, moves, r, minors) && WfSystem(r, minors) && minors >= 2 && f != g && f in r.calls && g in r.calls
    requires r.calls[f].LoopHead? && Armed(r.calls[f], r.calls[f].m, v)
    requires r.calls[g].LoopHead? && Armed(r.calls[g], r.calls[g].m, y)
    requires |v| == |y| && r.mem.sizes[r.calls[f].m] == r.mem.sizes[r.calls[g].m] == |v|
    requires forall t | t in r.calls && t != f && t != g :: r.calls[t].Returned?
    ensures Leads(s, more, next, minors) && WfSystem(next, minors) && AllReturned(next)
    ensures var m := r.calls[f].m;
            && next.mem.sizes[m] == |v| && Shows(next.mem, PeerOf(m), v)
            && next.mem.bufs[m][..|v|] == if r.calls[g].m == m then r.mem.bufs[m][..|v|] else y
  {
    var c, d := r.calls[f], r.calls[g];
    var mem1 := AllPassed(r.mem, d.m, 0, y, minors);
    var k := RestOfBroadcast(r.mem, d, d.m, 0, y, minors);
    more, next := ThenTurn(s, moves, r, g, (mem1, Returned(Value(d.len))), k, minors);
    var mem2 := AllPassed(mem1, c.m, 0, v, minors);
    var j := RestOfBroadcast(mem1, c, c.m, 0, v, minors);
    more, next := ThenTurn(s, more, next, f, (mem2, Returned(Value(c.len))), j, minors);
    assert v[..|v|] == v && mem2.bufs[PeerOf(c.m)][..|v|] == v;
  }

  /**
   The first schedule, for writes of the same total length: two calls that would show different bytes
   hold them in their local arrays while all others run, and then broadcast what is stale by now.
   */
  lemma StaleBroadcast(s: System, T: set<Tid>, f: Tid, g: Tid, minors: nat) returns (moves: seq<Move>)
    requires Begun(s, T, minors) && f in T && g in T && minors >= 2
    requires forall t | t in T :: |Aim(s, t, minors)| == |Aim(s, f, minors)|
    requires Aim(s, f, minors) != Aim(s, g, minors)
    requires s.calls[f].m != s.calls[g].m || s.calls[g].pos <= s.calls[f].pos
    ensures Plain(moves) && Apart(GoAll(s, moves, minors), minors)
  {
    var m, n, v, y := s.calls[f].m, s.calls[g].m, Aim(s, f, minors), Aim(s, g, minors);
    var r: System, end: System;
    moves, r := BothArmed(s, T, f, g, minors);
    if m != n || r.mem.bufs[m][..|v|] != v {
      moves, end := BothSend(s, moves, r, f, v, g, y, minors);
      PeerApart(end, m, v, minors);
    } else {
      moves, end := BothSend(s, moves, r, g, y, f, v, minors);
      PeerApart(end, n, y, minors);
    }
  }

  /** A peer of m shows v, and m other bytes of the same number. */
  lemma PeerApart(r: System, m: nat, v: seq<byte>, minors: nat)
    requires WfSystem(r, minors) && AllReturned(r) && minors >= 2 && m < minors
    requires r.mem.sizes[m] == |v| && Shows(r.mem, PeerOf(m), v) && r.mem.bufs[m][..|v|] != v
    ensures Apart(r, minors)
  {
    assert v[..|v|] == v;
    assert !SameView(r.mem, PeerOf(m), m, minors);
  }

  /** A broadcast alone, up to the store of its length as the first peer's size. */
  lemma UpToFirstSize(mem: Mem, c: Call, m: nat, x: seq<byte>, minors: nat) returns (k: nat)
    requires Broadcasting(mem, c, m, 0, x, minors) && minors >= 2
    ensures var p := PeerOf(m);
            Reaches((mem, c), (Put(mem, p, 0, x), SetPeerSize(m, c.len, p, c.tmp, |x|)), k, minors)
  {
    var p := PeerOf(m);
    var end := (Put(mem, p, 0, x), SetPeerSize(m, c.len, p, c.tmp, |x|));
    k := 0;
    assert Reaches(end, end, k, minors);
    if m == 0 {
      var next := LoopHead(m, c.len, 1, c.tmp);
      k := OnePassCopies(mem, next, m, 1, x, minors, end, k);
      OneMore((mem, c), (mem, next), end, k, minors);
      k := k + 1;
    } else {
      k := OnePassCopies(mem, c, m, 0, x, minors, end, k);
    }
  }

  /** The same broadcast from that store to its return, in a memory that others changed meanwhile. */
  lemma FromFirstSize(mem: Mem, m: nat, len: int, tmp: seq<byte>, n: int, minors: nat) returns (mem': Mem, k: nat)
    requires WfMem(mem, minors) && m < minors && minors >= 2 && |tmp| == MY_BUFFER_SIZE && 0 <= n <= MY_BUFFER_SIZE
    ensures Reaches((mem, SetPeerSize(m, len, PeerOf(m), tmp, n)), (mem', Returned(Value(len))), k, minors)
    ensures WfMem(mem', minors) && mem'.sizes[PeerOf(m)] == n && mem'.sizes[m] == mem.sizes[m]
  {
    var p := PeerOf(m);
    var mem1 := mem.(sizes := mem.sizes[p := n]);
    var mem2 := mem1.(ready := mem1.ready[p := true]);
    var c := LoopHead(m, len, p + 1, tmp);
    var x := tmp[..mem.sizes[m]];
    k := RestOfBroadcast(mem2, c, m, p + 1, x, minors);
    mem' := AllPassed(mem2, m, p + 1, x, minors);
    OneMore((mem1, RaisePeer(m, len, p, tmp)), (mem2, c), (mem', Returned(Value(len))), k, minors);
    k := k + 1;
    OneMore((mem, SetPeerSize(m, len, p, tmp, n)), (mem1, RaisePeer(m, len, p, tmp)), (mem', Returned(Value(len))), k, minors);
    k := k + 1;
  }

  /**
   The second schedule, for writes of different total lengths: f has read its length to store it as the
   size of a peer, all others run, g last, and then f stores what is stale by now.
   */
  lemma StaleSize(s: System, T: set<Tid>, f: Tid, g: Tid, minors: nat) returns (moves: seq<Move>)
    requires Begun(s, T, minors) && f in T && g in T && minors >= 2
    requires |Aim(s, f, minors)| != |Aim(s, g, minors)|
    ensures Plain(moves) && Apart(GoAll(s, moves, minors), minors)
  {
    var w, x := s.calls[f], s.calls[g];
    var v, p := Aim(s, f, minors), PeerOf(s.calls[f].m);
    var r: System, at: Call;
    moves, r, at := SizeLoaded(s, f, minors);
    moves, r := WholeAll(s, moves, r, T - {f, g}, |v|, minors);
    var mem3, ret, k2 := WholeWrite(r.mem, x.m, x.pos, x.data, minors);
    assert Shows(mem3, w.m, Written(r.mem, x.m, x.pos, x.data));
    moves, r := ThenTurn(s, moves, r, g, (mem3, Returned(ret)), k2, minors);
    var mem4, k3 := FromFirstSize(mem3, w.m, at.len, at.tmp, |v|, minors);
    moves, r := ThenTurn(s, moves, r, f, (mem4, Returned(Value(at.len))), k3, minors);
    SizesApart(r, p, w.m, minors);
  }

  /** f alone, up to the store of its length as the first peer's size. */
  lemma SizeLoaded(s: System, f: Tid, minors: nat) returns (moves: seq<Move>, r: System, at: Call)
    requires WfSystem(s, minors) && f in s.calls && s.calls[f].CheckSpace? && s.calls[f].pos < MY_BUFFER_SIZE && minors >= 2
    ensures Leads(s, moves, r, minors) && WfSystem(r, minors) && r.calls == s.calls[f := at]
    ensures at.SetPeerSize? && |at.tmp| == MY_BUFFER_SIZE
    ensures at == SetPeerSize(s.calls[f].m, at.len, PeerOf(s.calls[f].m), at.tmp, |Aim(s, f, minors)|)
  {
    var w, v := s.calls[f], Aim(s, f, minors);
    var mem1 := Filled(s.mem, w.m, w.pos, w.data[..Room(w.pos, |w.data|)]);
    var c, j := UpToBroadcast(s.mem, w.m, w.pos, w.data, minors);
    moves, r := ThenTurn(s, [], s, f, (mem1, c), j, minors);
    at := SetPeerSize(w.m, c.len, PeerOf(w.m), c.tmp, |v|);
    var k := UpToFirstSize(mem1, c, w.m, v, minors);
    moves, r := ThenTurn(s, moves, r, f, (Put(mem1, PeerOf(w.m), 0, v), at), k, minors);
  }

  lemma DrivenApart(s: System, T: set<Tid>, t: Tid, u: Tid, minors: nat) returns (moves: seq<Move>)
    requires Begun(s, T, minors) && t in T && u in T && minors >= 2 && Aim(s, t, minors) != Aim(s, u, minors)
    ensures Plain(moves) && Apart(GoAll(s, moves, minors), minors)
  {
    if x :| x in T && |Aim(s, x, minors)| != |Aim(s, t, minors)| {
      moves := StaleSize(s, T, x, t, minors);
    } else if s.calls[u].pos <= s.calls[t].pos {
      moves := StaleBroadcast(s, T, t, u, minors);
    } else {
      moves := StaleBroadcast(s, T, u, t, minors);
    }
  }

  ghost predicate AgreesAfter(s: System, moves: seq<Move>, minors: nat)
    requires WfSystem(s, minors)
  {
    var r := GoAll(s, moves, minors);
    AllReturned(r) ==> InAgreement(r.mem, minors)
  }

  /**
   Any number of writes that have just been called, on the same minor or on different ones, at any
   positions, with any data, over any contents: the minors agree after every interleaving of their
   statements exactly when there is only one minor, or all the writes would show the same bytes alone.
   */
  lemma OverlappingWritesAgreeIff(s: System, T: set<Tid>, minors: nat)
    requires Begun(s, T, minors) && T != {}
    ensures (forall moves | Plain(moves) :: AgreesAfter(s, moves, minors))
            <==> minors == 1 || forall t, u | t in T && u in T :: Aim(s, t, minors) == Aim(s, u, minors)
  {
    var t0 :| t0 in T;
    assert s.calls[t0].m < minors;
    if minors == 1 {
    } else if t, u :| t in T && u in T && Aim(s, t, minors) != Aim(s, u, minors) {
      var moves := DrivenApart(s, T, t, u, minors);
      assert !AgreesAfter(s, moves, minors);
    } else {
      forall moves | Plain(moves)
        ensures AgreesAfter(s, moves, minors)
      {
        AimsAgree(s, T, Aim(s, t0, minors), moves, minors);
      }
    }
  }

  lemma AimsAgree(s: System, T: set<Tid>, v: seq<byte>, moves: seq<Move>, minors: nat)
    requires Begun(s, T, minors) && T != {} && (forall t | t in T :: Aim(s, t, minors) == v) && Plain(moves)
    ensures AgreesAfter(s, moves, minors)
  {
    EqualWritesAgree(s, T, v, moves, minors);
    var r := GoAll(s, moves, minors);
    if AllReturned(r) {
      AllShowAgree(r.mem, v, minors);
    }
  }

  /**
   So agreement needs the handlers not to overlap: from any memory, two writes that alone would show
   different bytes have a schedule after which both have returned and two minors differ.
   */
  lemma ConcurrentWritesDiverge(s: System, t: Tid, w: Call, u: Tid, x: Call, minors: nat)
    requires WfSystem(s, minors) && AllReturned(s) && minors >= 2 && t != u
    requires w.CheckSpace? && w.m < minors && w.pos < MY_BUFFER_SIZE
    requires x.CheckSpace? && x.m < minors && x.pos < MY_BUFFER_SIZE
    requires Written(s.mem, w.m, w.pos, w.data) != Written(s.mem, x.m, x.pos, x.data)
    ensures exists moves :: Apart(GoAll(s, moves, minors), minors)
  {
    var first, second := Start(t, w), Start(u, x);
    var s1 := Go(s, first, minors);
    var s2 := Go(s1, second, minors);
    var rest := DrivenApart(s2, {t, u}, t, u, minors);
    var moves := [first] + ([second] + rest);
    assert moves[1..] == [second] + rest && ([second] + rest)[1..] == rest;
    assert GoAll(s1, moves[1..], minors) == GoAll(s2, rest, minors);
    assert Apart(GoAll(s, moves, minors), minors);
  }
}
