/** The DMA engine with no fixed channels (DmaOpOpAlg): memcpy and memcpy_chain
    copy memory as fast as alignment allows; devcpy and devcpy_chain move
    memory in chunks, one chunk per request the device makes through
    req_transfer. The memory sits behind the engine's `mem` port; the engine
    keeps the record of the read/write pairs it issued on that port, and the
    request-event table. What the pairs do to the memory is Memory.Apply. */
module Engine {
  import opened Memory
  import opened Op
  import opened Planner
  import opened Requests
  import opened Chunks
  import opened Pacing

  /** Where a device chain stands: at position i of the schedule with the
      event at flag, rest still pending, and the chunks `paid` for so far
      issued on the port as `issued`. The chain needs as many more requests
      as the whole chain (n requests) has left at that point, and the chunks
      paid for, then the pending ones, are all the chunks of the chain. */
  ghost predicate ChainAt(n: nat, device: seq<Event>, flag: bool, i: nat, rest: seq<Cursor>,
                          issued: seq<Access>, all: seq<seq<Access>>, paid: seq<seq<Access>>)
  {
    && i <= |device| && AllValid(rest)
    && Pace(false, n, device) == Pace(flag, TotalChunks(rest), device[i..])
    && paid + ChainChunks(rest) == all
    && issued == Flatten(paid)
  }

  /** A chunk loop run from cursor c at position i of the schedule (the event
      at flag0, `after` requests owed by the rest of the chain) to cursor last
      at position j (the event at flag1): the requests still owed drop by the
      chunks moved, and `now` is those chunks, issued as `chunks`; last is c
      advanced by as many chunks. */
  ghost predicate Ran(device: seq<Event>, after: nat, c: Cursor, i: nat, flag0: bool,
                      last: Cursor, j: nat, flag1: bool, now: seq<seq<Access>>, chunks: seq<Access>)
  {
    && Valid(c) && Valid(last) && i <= j <= |device|
    && Pace(flag0, ChunksLeft(c) + after, device[i..]) == Pace(flag1, ChunksLeft(last) + after, device[j..])
    && now + CursorChunks(last) == CursorChunks(c) && chunks == Flatten(now)
    && last == AdvanceBy(c, |now|)
  }

  /** One more turn of a chunk loop, from prev at j0 to last at j1: a chunk
      moved is added to those of the run, and a turn that moved nothing
      leaves them as they were. */
  lemma {:induction false} RanExtend(device: seq<Event>, after: nat, c: Cursor, i: nat, flag0: bool,
                                     prev: Cursor, j0: nat, flagMid: bool, paid: seq<seq<Access>>,
                                     chunks: seq<Access>, last: Cursor, j1: nat, flag1: bool, got: bool)
    requires Ran(device, after, c, i, flag0, prev, j0, flagMid, paid, chunks)
    requires Valid(last) && j0 <= j1 <= |device|
    requires Pace(flagMid, ChunksLeft(prev) + after, device[j0..]) ==
      Pace(flag1, ChunksLeft(last) + after, device[j1..])
    requires got ==> CursorChunks(prev) == [ChunkAccesses(prev)] + CursorChunks(last)
    requires got ==> last == Advance(prev)
    requires !got ==> last == prev
    ensures got ==> Ran(device, after, c, i, flag0, last, j1, flag1,
                        paid + [ChunkAccesses(prev)], chunks + ChunkAccesses(prev))
    ensures !got ==> Ran(device, after, c, i, flag0, last, j1, flag1, paid, chunks)
  {
    if got {
      SeqAssoc3(paid, [ChunkAccesses(prev)], CursorChunks(last));
      FlattenSnoc(paid, ChunkAccesses(prev));
      assert AdvanceBy(c, |paid| + 1) == Advance(prev);
    }
  }

  /** The requests a chain still needs, before and after the chunk loop of
      its first descriptor c stopped at last: what the loop did with the
      schedule carries over to the whole chain. */
  lemma {:induction false} PendingPace(n: nat, device: seq<Event>, flag0: bool, flag1: bool, i0: nat, i1: nat,
                                       c: Cursor, last: Cursor, tail: seq<Cursor>, issued: seq<Access>,
                                       chunks: seq<Access>, all: seq<seq<Access>>, paid: seq<seq<Access>>,
                                       now: seq<seq<Access>>)
    requires AllValid(tail) && ChainAt(n, device, flag0, i0, [c] + tail, issued, all, paid)
    requires Ran(device, TotalChunks(tail), c, i0, flag0, last, i1, flag1, now, chunks)
    ensures AllValid(Pending(last, tail))
    ensures Pace(false, n, device) == Pace(flag1, TotalChunks(Pending(last, tail)), device[i1..])
    ensures last.remaining > 0 ==> TotalChunks(Pending(last, tail)) > 0
  {
    ChainCons(c, tail);
    PendingCons(last, tail);
  }

  /** The chunks of a chain, before and after the chunk loop of its first
      descriptor c moved the chunks `now` and stopped at last: those paid for,
      then the pending ones, are still all of the chain's, and the pairs
      issued are still those of the chunks paid for. */
  lemma {:induction false} PendingChunks(n: nat, device: seq<Event>, flag0: bool, flag1: bool, i0: nat, i1: nat,
                                         c: Cursor, last: Cursor, tail: seq<Cursor>, issued: seq<Access>,
                                         chunks: seq<Access>, all: seq<seq<Access>>, paid: seq<seq<Access>>,
                                         now: seq<seq<Access>>)
    requires AllValid(tail) && ChainAt(n, device, flag0, i0, [c] + tail, issued, all, paid)
    requires Ran(device, TotalChunks(tail), c, i0, flag0, last, i1, flag1, now, chunks)
    ensures AllValid(Pending(last, tail))
    ensures (paid + now) + ChainChunks(Pending(last, tail)) == all
    ensures issued + chunks == Flatten(paid + now)
  {
    ChainCons(c, tail);
    PendingCons(last, tail);
    SeqAssoc(paid, now, CursorChunks(last), ChainChunks(tail));
    FlattenAppend(paid, now);
  }

  /** One descriptor of a device chain, as the engine runs it: whatever the
      chunk loop of the descriptor did with the schedule, the chain is left with
      the requests and the chunks of what is pending. */
  lemma {:induction false} ChainStep(n: nat, device: seq<Event>, flag0: bool, flag1: bool, i0: nat, i1: nat,
                                     c: Cursor, last: Cursor, tail: seq<Cursor>, issued: seq<Access>,
                                     chunks: seq<Access>, all: seq<seq<Access>>, paid: seq<seq<Access>>,
                                     now: seq<seq<Access>>)
    requires AllValid(tail) && ChainAt(n, device, flag0, i0, [c] + tail, issued, all, paid)
    requires Ran(device, TotalChunks(tail), c, i0, flag0, last, i1, flag1, now, chunks)
    ensures ChainAt(n, device, flag1, i1, Pending(last, tail), issued + chunks, all, paid + now)
    ensures last.remaining > 0 ==> TotalChunks(Pending(last, tail)) > 0
  {
    PendingPace(n, device, flag0, flag1, i0, i1, c, last, tail, issued, chunks, all, paid, now);
    PendingChunks(n, device, flag0, flag1, i0, i1, c, last, tail, issued, chunks, all, paid, now);
  }

  /** What a whole chunk loop from cursor c at the start of the schedule
      leaves behind, stated of c alone: the loop stops with the requests owed
      and the chunks paid for as the schedule dictates, and the pairs issued
      and those still to come make the whole burst. */
  lemma {:induction false} RunOutcome(device: seq<Event>, c: Cursor, last: Cursor, j: nat, flag: bool,
                                      paid: seq<seq<Access>>, chunks: seq<Access>)
    requires Ran(device, 0, c, 0, false, last, j, flag, paid, chunks)
    requires last.remaining > 0 ==> j == |device|
    ensures var r := Pace(false, ChunksLeft(c), device);
      && (last.remaining == 0 <==> r.1 == 0)
      && (last.remaining > 0 ==> r.0 == flag)
      && ChunksLeft(last) == r.1
      && paid == CursorChunks(c)[..ChunksLeft(c) - r.1]
    ensures chunks + CursorPlan(last) == Burst(c.src, c.dst, c.remaining, c.accSz, c.incSrc, c.incDst)
  {
    assert device[0..] == device;
    if last.remaining > 0 {
      assert device[j..] == [];
    }
    assert paid == (paid + CursorChunks(last))[..|paid|];
    CursorChunksPlan(c);
    CursorChunksPlan(last);
    FlattenAppend(paid, CursorChunks(last));
    CursorPlanUniform(c);
  }

  /** The multi-access transfer (32 bytes, 8-byte accesses, 2 per chunk) after
      one request and one engine turn: one chunk is still owed, and the pairs
      issued are exactly the two of the first chunk. */
  lemma {:induction false} MultiAccessOneRequest()
    ensures var c := Cursor(0x1000, 0x2000, 32, 8, 2, true, true);
      var r := Pace(false, ChunksLeft(c), [Request, Resume]);
      && r.1 == 1
      && Flatten(CursorChunks(c)[..ChunksLeft(c) - r.1]) ==
         [Access(0x1000, 0x2000, 8), Access(0x1008, 0x2008, 8)]
  {
    var c := Cursor(0x1000, 0x2000, 32, 8, 2, true, true);
    MultiAccessChunk();
    var evs := [Request, Resume];
    assert evs[1..] == [Resume] && evs[1..][1..] == [];
    assert Pace(false, 2, evs) == (false, 1);
    var xs := CursorChunks(c);
    assert xs[..1] == [ChunkAccesses(c)];
    assert [ChunkAccesses(c)][1..] == [];
  }

  class DmaEngine {
    /** Every read/write pair issued on the `mem` port, in order. */
    var port: seq<Access>
    /** req_id -> whether its event is set. */
    var reqEvents: Table

    constructor ()
      ensures port == [] && reqEvents == map[]
    {
      port := [];
      reqEvents := map[];
    }

    /** The device asks for the next chunk of the transfer registered under id. */
    method ReqTransfer(id: int)
      modifies this`reqEvents
      ensures reqEvents == Signal(old(reqEvents), id)
    {
      if id in reqEvents {
        reqEvents := reqEvents[id := true];
      }
    }

    /** One read/write pair on the port: read the word at src, then write its
        low size bytes at dst. */
    method Move(src: int, dst: int, size: nat)
      modifies this`port
      ensures port == old(port) + [Access(src, dst, size)]
    {
      port := port + [Access(src, dst, size)];
    }

    /** Copies sz bytes from src to dst, each access as wide as the alignment
        of the source address and the bytes remaining allow. */
    method Memcpy(src: int, dst: int, sz: nat)
      modifies this`port
      ensures port == old(port) + Plan(src, dst, sz)
      ensures sz == 0 ==> port == old(port)
    {
      var s, d, remaining := src, dst, sz;
      ghost var done: seq<Access> := [];
      while remaining > 0
        invariant done + Plan(s, d, remaining) == Plan(src, dst, sz)
        invariant port == old(port) + done
        decreases remaining
      {
        var w := AccessWidth(s, remaining);
        PlanProgress(done, Plan(src, dst, sz), s, d, remaining);
        Move(s, d, w);
        done := done + [Access(s, d, w)];
        s, d, remaining := s + w, d + w, remaining - w;
      }
      assert done == Plan(src, dst, sz);
    }

    /** Runs memcpy on each descriptor, in list order. */
    method MemcpyChain(xfers: seq<MemCpy>)
      modifies this`port
      ensures port == old(port) + ChainPlan(xfers)
    {
      var i := 0;
      while i < |xfers|
        invariant 0 <= i <= |xfers|
        invariant port + ChainPlan(xfers[i..]) == old(port) + ChainPlan(xfers)
      {
        ghost var p := Plan(xfers[i].src, xfers[i].dst, xfers[i].sz);
        assert xfers[i..][1..] == xfers[i + 1..];
        assert (port + p) + ChainPlan(xfers[i + 1..]) == port + ChainPlan(xfers[i..]);
        Memcpy(xfers[i].src, xfers[i].dst, xfers[i].sz);
        i := i + 1;
      }
    }

    /** Moves one chunk of a device transfer: min(chkSz * accSz, remaining)
        bytes in accesses of accSz bytes, advancing each address after each
        access only if asked to. */
    method TransferChunk(c: Cursor) returns (next: Cursor)
      requires Valid(c) && c.remaining > 0
      modifies this`port
      ensures next == Advance(c)
      ensures port == old(port) + ChunkAccesses(c)
    {
      var acc := c.accSz;
      var chunkBytes := c.chkSz * acc;
      var xferBytes := if chunkBytes < c.remaining then chunkBytes else c.remaining;
      var s, d := c.src, c.dst;
      var chunkRemaining: int := xferBytes;
      ghost var done: seq<Access> := [];
      while chunkRemaining > 0
        invariant done + Burst(s, d, chunkRemaining, acc, c.incSrc, c.incDst) == ChunkAccesses(c)
        invariant s == Bump(c.src, c.incSrc, |done| * acc)
        invariant d == Bump(c.dst, c.incDst, |done| * acc)
        invariant port == old(port) + done
        decreases chunkRemaining
      {
        BurstProgress(done, ChunkAccesses(c), s, d, chunkRemaining, acc, c.incSrc, c.incDst, c.src, c.dst);
        Move(s, d, acc);
        done := done + [Access(s, d, acc)];
        if c.incSrc {
          s := s + acc;
        }
        if c.incDst {
          d := d + acc;
        }
        chunkRemaining := chunkRemaining - acc;
      }
      assert done == ChunkAccesses(c);
      BurstLength(c.src, c.dst, xferBytes, acc, c.incSrc, c.incDst);
      next := c.(src := s, dst := d, remaining := c.remaining - xferBytes);
    }

    /** The engine waits on the event of reqId, consuming the device schedule
        from position i: a Request is a req_transfer(reqId) call, a Resume a
        turn of the engine, on which the wait returns if the event is set.
        With the schedule exhausted the engine is still waiting. */
    method Wait(reqId: int, device: seq<Event>, i: nat, ghost left: nat) returns (j: nat, got: bool)
      requires reqId in reqEvents && i <= |device| && left > 0
      modifies this`reqEvents
      ensures i <= j <= |device|
      ensures reqId in reqEvents && reqEvents == old(reqEvents)[reqId := reqEvents[reqId]]
      ensures got ==> (reqEvents[reqId] && i < j && device[j - 1] == Resume &&
        Pace(old(reqEvents)[reqId], left, device[i..j - 1]) == (true, left) &&
        Pace(old(reqEvents)[reqId], left, device[i..]) == Pace(false, left - 1, device[j..]))
      ensures !got ==> (j == |device| &&
        Pace(old(reqEvents)[reqId], left, device[i..]) == (reqEvents[reqId], left))
    {
      j, got := i, false;
      assert device[i..i] == [];
      while j < |device| && !got
        invariant i <= j <= |device|
        invariant reqId in reqEvents && reqEvents == old(reqEvents)[reqId := reqEvents[reqId]]
        invariant !got ==> Pace(old(reqEvents)[reqId], left, device[i..]) == Pace(reqEvents[reqId], left, device[j..])
        invariant !got ==> Pace(old(reqEvents)[reqId], left, device[i..j]) == (reqEvents[reqId], left)
        invariant got ==> (reqEvents[reqId] && i < j && device[j - 1] == Resume &&
          Pace(old(reqEvents)[reqId], left, device[i..j - 1]) == (true, left) &&
          Pace(old(reqEvents)[reqId], left, device[i..]) == Pace(false, left - 1, device[j..]))
        decreases |device| - j
      {
        assert device[j..][1..] == device[j + 1..];
        assert device[i..j + 1] == device[i..j] + [device[j]];
        PaceSnoc(old(reqEvents)[reqId], left, device[i..j], device[j]);
        if device[j] == Request {
          ReqTransfer(reqId);
        } else if reqEvents[reqId] {
          got := true;
        }
        j := j + 1;
      }
    }

    /** One turn of the chunk loop: wait for the event; once it is set, clear
        it and move the next chunk. With the schedule exhausted first, nothing
        moves and the engine is still waiting. */
    method NextChunk(c: Cursor, reqId: int, device: seq<Event>, i: nat, ghost flag: bool, ghost after: nat)
      returns (j: nat, got: bool, next: Cursor)
      requires Valid(c) && c.remaining > 0 && i <= |device|
      requires reqId in reqEvents && reqEvents[reqId] == flag
      modifies this`port, this`reqEvents
      ensures i <= j <= |device| && Valid(next)
      ensures reqId in reqEvents && reqEvents == old(reqEvents)[reqId := reqEvents[reqId]]
      ensures got ==> next == Advance(c) && port == old(port) + ChunkAccesses(c)
      ensures got ==> CursorChunks(c) == [ChunkAccesses(c)] + CursorChunks(next)
      ensures !got ==> next == c && j == |device| && port == old(port)
      ensures Pace(flag, ChunksLeft(c) + after, device[i..]) ==
        Pace(reqEvents[reqId], ChunksLeft(next) + after, device[j..])
    {
      j, got := Wait(reqId, device, i, ChunksLeft(c) + after);
      Reassign(old(reqEvents), reqId, flag, reqEvents[reqId]);
      if got {
        ChunkProgress([], CursorPlan(c), c);
        reqEvents := reqEvents[reqId := false];
        Reassign(old(reqEvents), reqId, true, false);
        next := TransferChunk(c);
      } else {
        next := c;
      }
    }

    /** The chunk loop of one descriptor: wait for the event, clear it, move a
        chunk, until nothing is left or the schedule ends (with the engine
        still waiting). `after` is the number of requests the rest of the
        chain will need; `paid` is the pairs of each chunk moved. */
    method RunChunks(c: Cursor, reqId: int, device: seq<Event>, i: nat, ghost flag: bool, ghost after: nat)
      returns (j: nat, last: Cursor, ghost chunks: seq<Access>, ghost paid: seq<seq<Access>>)
      requires Valid(c) && reqId in reqEvents && reqEvents[reqId] == flag && i <= |device|
      modifies this`port, this`reqEvents
      ensures last.remaining > 0 ==> j == |device|
      ensures reqId in reqEvents && reqEvents == old(reqEvents)[reqId := reqEvents[reqId]]
      ensures port == old(port) + chunks
      ensures Ran(device, after, c, i, flag, last, j, reqEvents[reqId], paid, chunks)
    {
      chunks, paid := [], [];
      j, last := i, c;
      while last.remaining > 0 && j < |device|
        invariant reqId in reqEvents && reqEvents == old(reqEvents)[reqId := reqEvents[reqId]]
        invariant port == old(port) + chunks
        invariant Ran(device, after, c, i, flag, last, j, reqEvents[reqId], paid, chunks)
        decreases last.remaining, |device| - j
      {
        ghost var prev, flagNow, j0 := last, reqEvents[reqId], j;
        var got;
        j, got, last := NextChunk(last, reqId, device, j, flagNow, after);
        Reassign(old(reqEvents), reqId, flagNow, reqEvents[reqId]);
        RanExtend(device, after, c, i, flag, prev, j0, flagNow, paid, chunks, last, j, reqEvents[reqId], got);
        if got {
          SeqAssoc3(old(port), chunks, ChunkAccesses(prev));
          chunks := chunks + ChunkAccesses(prev);
          paid := paid + [ChunkAccesses(prev)];
        }
      }
    }

    /** One descriptor of a device chain: its chunk loop, after which the
        chain is left with what is pending. `tail` is the rest of the chain,
        `issued` what the chain issued before for the chunks `paid`, `all`
        every chunk of the chain; `now` is the chunks this descriptor moved. */
    method RunDescriptor(c: Cursor, reqId: int, device: seq<Event>, i: nat, ghost flag: bool,
                         ghost tail: seq<Cursor>, ghost n: nat, ghost issued: seq<Access>,
                         ghost all: seq<seq<Access>>, ghost paid: seq<seq<Access>>)
      returns (j: nat, last: Cursor, ghost chunks: seq<Access>, ghost now: seq<seq<Access>>)
      requires Valid(c) && AllValid(tail) && reqId in reqEvents && reqEvents[reqId] == flag
      requires ChainAt(n, device, flag, i, [c] + tail, issued, all, paid)
      modifies this`port, this`reqEvents
      ensures i <= j && reqId in reqEvents && reqEvents == old(reqEvents)[reqId := reqEvents[reqId]]
      ensures port == old(port) + chunks
      ensures ChainAt(n, device, reqEvents[reqId], j, Pending(last, tail), issued + chunks, all, paid + now)
      ensures last.remaining > 0 ==> j == |device| && TotalChunks(Pending(last, tail)) > 0
      ensures last.remaining == 0 ==> Pending(last, tail) == tail
    {
      j, last, chunks, now := RunChunks(c, reqId, device, i, flag, TotalChunks(tail));
      ChainStep(n, device, flag, reqEvents[reqId], i, j, c, last, tail, issued, chunks, all, paid, now);
    }

    /** The descriptor loop of devcpy_chain over the cursors cs, the event of
        reqId registered: each descriptor's chunk loop in turn, until all are
        done or the schedule ends with the engine still waiting. `rest` is what
        is pending at the end, `paid` the chunks moved; n and all are the
        requests and the chunks of the entire chain. */
    method RunChain(cs: seq<Cursor>, reqId: int, device: seq<Event>, ghost n: nat, ghost all: seq<seq<Access>>)
      returns (done: bool, i: nat, ghost rest: seq<Cursor>, ghost issued: seq<Access>, ghost paid: seq<seq<Access>>)
      requires AllValid(cs) && reqId in reqEvents
      requires Pace(false, n, device) == Pace(reqEvents[reqId], TotalChunks(cs), device)
      requires ChainChunks(cs) == all
      modifies this`port, this`reqEvents
      ensures reqId in reqEvents && reqEvents == old(reqEvents)[reqId := reqEvents[reqId]]
      ensures port == old(port) + issued
      ensures ChainAt(n, device, reqEvents[reqId], i, rest, issued, all, paid)
      ensures done ==> rest == []
      ensures !done ==> i == |device| && TotalChunks(rest) > 0
    {
      rest, issued, paid := cs, [], [];
      assert device[0..] == device;
      assert paid + ChainChunks(rest) == all;
      var todo := cs;
      i, done := 0, true;
      while todo != [] && done
        invariant reqId in reqEvents && reqEvents == old(reqEvents)[reqId := reqEvents[reqId]]
        invariant port == old(port) + issued
        invariant ChainAt(n, device, reqEvents[reqId], i, rest, issued, all, paid)
        invariant done ==> rest == todo
        invariant !done ==> i == |device| && TotalChunks(rest) > 0
        decreases |todo|
      {
        assert todo == [todo[0]] + todo[1..];
        ghost var flag0 := reqEvents[reqId];
        var last;
        ghost var chunks, now;
        i, last, chunks, now := RunDescriptor(todo[0], reqId, device, i, flag0, todo[1..], n, issued, all, paid);
        Reassign(old(reqEvents), reqId, flag0, reqEvents[reqId]);
        issued, paid := issued + chunks, paid + now;
        rest := Pending(last, todo[1..]);
        done := last.remaining == 0;
        todo := todo[1..];
      }
    }

    /** Runs a chain of device transfers under one request id. The id is
        registered with a fresh, clear event on entry (replacing any entry it
        had) and removed on exit; each chunk waits for the event, clears it and
        moves the chunk. `device` is the schedule the device and the engine
        follow; done is false when it ends with the engine still waiting, and
        `rest` is then what is still pending. */
    method DevcpyChain(xfers: seq<DevCpy>, reqId: int, device: seq<Event>)
      returns (done: bool, ghost rest: seq<Cursor>, ghost issued: seq<Access>)
      requires AllFinite(xfers)
      modifies this`port, this`reqEvents
      ensures AllValid(rest) && issued + DevChainPlan(rest) == DevChainPlan(Starts(xfers))
      ensures var cs, r := Starts(xfers), Pace(false, TotalChunks(Starts(xfers)), device);
        && (done <==> r.1 == 0)
        && TotalChunks(rest) == r.1
        && issued == ChunkPairs(cs, TotalChunks(cs) - r.1)
        && ChainChunks(rest) == ChainChunks(cs)[TotalChunks(cs) - r.1..]
        && (done ==> reqEvents == old(reqEvents) - {reqId})
        && (!done ==> reqEvents == old(reqEvents)[reqId := r.0])
      ensures port == old(port) + issued
      ensures issued <= DevChainPlan(Starts(xfers))
      ensures done ==> rest == [] && issued == DevChainPlan(Starts(xfers))
    {
      reqEvents := reqEvents[reqId := false];
      var cs := Starts(xfers);
      var i;
      ghost var paid;
      done, i, rest, issued, paid := RunChain(cs, reqId, device, TotalChunks(cs), ChainChunks(cs));
      Reassign(old(reqEvents), reqId, false, reqEvents[reqId]);
      if done {
        Unregister(old(reqEvents), reqId, reqEvents[reqId]);
        reqEvents := reqEvents - {reqId};
      } else {
        assert device[i..] == [];
      }
      ghost var k := TotalChunks(cs) - TotalChunks(rest);
      assert paid == ChainChunks(cs)[..k] && ChainChunks(rest) == ChainChunks(cs)[k..];
      ChunkPairsPlan(cs, k);
      ChainChunksPlan(rest);
    }

    /** A single device transfer: the id is registered with a fresh, clear
        event on entry (replacing any entry it had) and removed on exit, and
        each chunk waits for the event, clears it and moves the chunk.
        `device` is the schedule the device and the engine follow; done is
        false when it ends with the engine still waiting, and `last` is the
        cursor where the transfer stands. */
    method Devcpy(src: int, dst: int, sz: nat, accSz: nat, chkSz: nat,
                  incSrc: bool, incDst: bool, reqId: int, device: seq<Event>)
      returns (done: bool, last: Cursor)
      requires sz > 0 ==> accSz >= 1 && chkSz >= 1
      modifies this`port, this`reqEvents
      ensures var c := Cursor(src, dst, sz, accSz, chkSz, incSrc, incDst);
        var r := Pace(false, ChunksLeft(c), device);
        && Valid(last)
        && (done <==> r.1 == 0)
        && ChunksLeft(last) == r.1
        && last == AdvanceBy(c, ChunksLeft(c) - r.1)
        && port == old(port) + Flatten(CursorChunks(c)[..ChunksLeft(c) - r.1])
        && (done ==> reqEvents == old(reqEvents) - {reqId})
        && (!done ==> reqEvents == old(reqEvents)[reqId := r.0])
      ensures old(port) <= port
      ensures port[|old(port)|..] + CursorPlan(last) == Burst(src, dst, sz, accSz, incSrc, incDst)
      ensures done ==> port == old(port) + Burst(src, dst, sz, accSz, incSrc, incDst)
    {
      var c := Cursor(src, dst, sz, accSz, chkSz, incSrc, incDst);
      reqEvents := reqEvents[reqId := false];
      var j;
      ghost var chunks, paid;
      j, last, chunks, paid := RunChunks(c, reqId, device, 0, false, 0);
      Reassign(old(reqEvents), reqId, false, reqEvents[reqId]);
      RunOutcome(device, c, last, j, reqEvents[reqId], paid, chunks);
      done := last.remaining == 0;
      if done {
        Unregister(old(reqEvents), reqId, reqEvents[reqId]);
        reqEvents := reqEvents - {reqId};
      }
      assert port[|old(port)|..] == chunks;
    }
  }
}
