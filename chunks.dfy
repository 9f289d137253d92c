/** The device-paced transfer as values. A devcpy moves its bytes in chunks,
    one chunk per device request; a chunk moves min(chkSz * accSz, remaining)
    bytes with accesses of accSz bytes each, advancing the source and the
    destination address after each access only when asked to. */
module Chunks {
  import opened Memory
  import opened Op

  /** The state of a devcpy loop over one descriptor, between two chunks. */
  datatype Cursor = Cursor(
    src: int, dst: int, remaining: nat,
    accSz: nat, chkSz: nat,
    incSrc: bool, incDst: bool)

  /** A cursor the loop can finish: with bytes left and accSz or chkSz zero,
      a chunk moves no byte and the transfer never ends. With nothing left the
      loop does not run, whatever accSz and chkSz are. */
  predicate Valid(c: Cursor)
  {
    c.remaining > 0 ==> c.accSz >= 1 && c.chkSz >= 1
  }

  function Start(d: DevCpy): Cursor
  {
    Cursor(d.src, d.dst, d.sz, d.accSz, d.chkSz, d.incSrc, d.incDst)
  }

  /** An address after `step` bytes have gone through it: advanced only if inc. */
  function Bump(addr: int, inc: bool, step: int): int
  {
    if inc then addr + step else addr
  }

  /** How many accesses of acc bytes a chunk of `bytes` bytes takes: the chunk
      loop runs while its counter is positive, taking acc off each time. */
  function Accesses(bytes: int, acc: nat): (k: nat)
    requires bytes > 0 ==> acc >= 1
    decreases bytes
    ensures bytes <= 0 <==> k == 0
  {
    if bytes <= 0 then 0 else 1 + Accesses(bytes - acc, acc)
  }

  /** The chunk loop makes the least number of accesses that cover the chunk:
      ceil(bytes / acc). */
  lemma {:induction false} AccessesCover(bytes: int, acc: nat)
    requires acc >= 1
    ensures var k := Accesses(bytes, acc);
      bytes > 0 ==> (k - 1) * acc < bytes <= k * acc
    decreases bytes
  {
    if bytes > acc {
      var k := Accesses(bytes - acc, acc);
      AccessesCover(bytes - acc, acc);
      assert (k + 1) * acc == k * acc + acc;
    }
  }

  /** The read/write pairs of one chunk of `bytes` bytes, one per access. */
  function Burst(src: int, dst: int, bytes: int, acc: nat, incSrc: bool, incDst: bool): (p: seq<Access>)
    requires bytes > 0 ==> acc >= 1
    decreases bytes
  {
    if bytes <= 0 then []
    else [Access(src, dst, acc)] + Burst(Bump(src, incSrc, acc), Bump(dst, incDst, acc), bytes - acc, acc, incSrc, incDst)
  }

  /** A chunk makes one pair per access. */
  lemma {:induction false} BurstLength(src: int, dst: int, bytes: int, acc: nat, incSrc: bool, incDst: bool)
    requires bytes > 0 ==> acc >= 1
    ensures |Burst(src, dst, bytes, acc, incSrc, incDst)| == Accesses(bytes, acc)
    decreases bytes
  {
    if bytes > 0 {
      BurstLength(Bump(src, incSrc, acc), Bump(dst, incDst, acc), bytes - acc, acc, incSrc, incDst);
    }
  }

  /** Access j of a chunk reads and writes acc bytes at j * acc past src and
      dst, for the addresses that advance, and at src and dst for those that
      do not. */
  lemma {:induction false} BurstAt(src: int, dst: int, bytes: int, acc: nat, incSrc: bool, incDst: bool)
    requires bytes > 0 ==> acc >= 1
    ensures var p := Burst(src, dst, bytes, acc, incSrc, incDst);
      forall j :: 0 <= j < |p| ==>
        p[j] == Access(Bump(src, incSrc, j * acc), Bump(dst, incDst, j * acc), acc)
    decreases bytes
  {
    if bytes > 0 {
      var s1, d1 := Bump(src, incSrc, acc), Bump(dst, incDst, acc);
      var p, rest := Burst(src, dst, bytes, acc, incSrc, incDst), Burst(s1, d1, bytes - acc, acc, incSrc, incDst);
      BurstAt(s1, d1, bytes - acc, acc, incSrc, incDst);
      forall j | 0 <= j < |p|
        ensures p[j] == Access(Bump(src, incSrc, j * acc), Bump(dst, incDst, j * acc), acc)
      {
        if j > 0 {
          assert p[j] == rest[j - 1];
          assert acc + (j - 1) * acc == j * acc;
        }
      }
    }
  }

  /** Bytes the next chunk moves: min(chkSz * accSz, remaining). */
  function ChunkLen(c: Cursor): (r: nat)
    ensures r <= c.remaining && r <= c.chkSz * c.accSz
    ensures r == c.remaining || r == c.chkSz * c.accSz
  {
    if c.chkSz * c.accSz < c.remaining then c.chkSz * c.accSz else c.remaining
  }

  /** The read/write pairs of the next chunk. */
  function ChunkAccesses(c: Cursor): seq<Access>
    requires Valid(c)
  {
    Burst(c.src, c.dst, ChunkLen(c), c.accSz, c.incSrc, c.incDst)
  }

  /** The cursor after the next chunk. */
  function Advance(c: Cursor): (next: Cursor)
    requires Valid(c)
    ensures Valid(next)
    ensures c.remaining > 0 ==> next.remaining < c.remaining
  {
    var moved := Accesses(ChunkLen(c), c.accSz) * c.accSz;
    c.(src := Bump(c.src, c.incSrc, moved),
       dst := Bump(c.dst, c.incDst, moved),
       remaining := c.remaining - ChunkLen(c))
  }

  /** How many chunks, hence device requests, the cursor still needs: the
      least r with r * chkSz * accSz >= remaining. */
  function ChunksLeft(c: Cursor): (r: nat)
    requires Valid(c)
    decreases c.remaining
    ensures c.remaining == 0 <==> r == 0
  {
    if c.remaining == 0 then 0 else 1 + ChunksLeft(Advance(c))
  }

  /** The chunks left are the least number whose full size covers what is
      left: every chunk but the last moves chkSz * accSz bytes. */
  lemma {:induction false} ChunksLeftCover(c: Cursor)
    requires Valid(c)
    ensures var r, size := ChunksLeft(c), c.chkSz * c.accSz;
      c.remaining > 0 ==> (r - 1) * size < c.remaining <= r * size
    decreases c.remaining
  {
    var size := c.chkSz * c.accSz;
    if c.remaining > 0 {
      MulPositive(c.chkSz, c.accSz);
    }
    if c.remaining > size {
      var next := Advance(c);
      assert next.remaining == c.remaining - size && next.chkSz * next.accSz == size;
      ChunksLeftCover(next);
      CoverStep(ChunksLeft(next), size, c.remaining);
    } else if c.remaining > 0 {
      assert Advance(c).remaining == 0;
    }
  }

  /** One more chunk of `size` bytes covers `size` more bytes. */
  lemma {:induction false} CoverStep(r: int, size: int, n: int)
    requires (r - 1) * size < n - size <= r * size
    ensures r * size < n <= (r + 1) * size
  {
    assert (r - 1) * size == r * size - size;
    assert (r + 1) * size == r * size + size;
  }

  /** Every read/write pair the cursor still issues, chunk after chunk. */
  function CursorPlan(c: Cursor): seq<Access>
    requires Valid(c)
    decreases c.remaining
  {
    if c.remaining == 0 then [] else ChunkAccesses(c) + CursorPlan(Advance(c))
  }

  /** The pairs the cursor still issues, one entry per chunk, hence one entry
      per device request it still needs. */
  function CursorChunks(c: Cursor): (r: seq<seq<Access>>)
    requires Valid(c)
    decreases c.remaining
    ensures |r| == ChunksLeft(c)
  {
    if c.remaining == 0 then [] else [ChunkAccesses(c)] + CursorChunks(Advance(c))
  }

  /** The pairs of a list of chunks, one chunk after another. */
  function Flatten(xs: seq<seq<Access>>): seq<Access>
    decreases |xs|
  {
    if xs == [] then [] else xs[0] + Flatten(xs[1..])
  }

  lemma {:induction false} FlattenAppend(a: seq<seq<Access>>, b: seq<seq<Access>>)
    ensures Flatten(a + b) == Flatten(a) + Flatten(b)
    decreases |a|
  {
    if a == [] {
      assert a + b == b;
    } else {
      assert (a + b)[1..] == a[1..] + b;
      FlattenAppend(a[1..], b);
    }
  }

  lemma {:induction false} FlattenSnoc(a: seq<seq<Access>>, x: seq<Access>)
    ensures Flatten(a + [x]) == Flatten(a) + x
  {
    FlattenAppend(a, [x]);
    assert [x][1..] == [];
  }

  /** Chunk by chunk, a cursor issues exactly its plan. */
  lemma {:induction false} CursorChunksPlan(c: Cursor)
    requires Valid(c)
    ensures Flatten(CursorChunks(c)) == CursorPlan(c)
    decreases c.remaining
  {
    if c.remaining > 0 {
      CursorChunksPlan(Advance(c));
      var xs := CursorChunks(c);
      assert xs[0] == ChunkAccesses(c) && xs[1..] == CursorChunks(Advance(c));
    }
  }

  /** The cursor after k more chunks. */
  function AdvanceBy(c: Cursor, k: nat): (r: Cursor)
    requires Valid(c)
    decreases k
    ensures Valid(r)
  {
    if k == 0 then c else Advance(AdvanceBy(c, k - 1))
  }

  /** After k of its chunks, a cursor has exactly the chunks after the k-th
      still to move. */
  lemma {:induction false} AdvanceByChunks(c: Cursor, k: nat)
    requires Valid(c) && k <= ChunksLeft(c)
    ensures CursorChunks(AdvanceBy(c, k)) == CursorChunks(c)[k..]
    decreases k
  {
    if k > 0 {
      AdvanceByChunks(c, k - 1);
      var a := AdvanceBy(c, k - 1);
      assert a.remaining > 0;
      assert CursorChunks(a) == [ChunkAccesses(a)] + CursorChunks(Advance(a));
      assert CursorChunks(c)[k..] == CursorChunks(c)[k - 1..][1..];
    }
  }

  /** ChunksLeft in closed form: ceil(remaining / (chkSz * accSz)). */
  lemma {:induction false} ChunksLeftCeil(c: Cursor)
    requires c.accSz >= 1 && c.chkSz >= 1
    ensures ChunksLeft(c) == (c.remaining + c.chkSz * c.accSz - 1) / (c.chkSz * c.accSz)
  {
    var n, size, r := c.remaining, c.chkSz * c.accSz, ChunksLeft(c);
    assert size >= 1 by { MulPositive(c.chkSz, c.accSz); }
    ChunksLeftCover(c);
    assert r == (n + size - 1) / size by { CeilUnique(n, size, r); }
  }

  lemma {:induction false} MulPositive(a: int, b: int)
    requires a >= 1 && b >= 1
    ensures a * b >= 1
  {
    assert a * b == (a - 1) * b + b;
    assert (a - 1) * b >= 0;
  }

  /** The least r with r * size >= n is the ceiling of n / size. */
  lemma {:induction false} CeilUnique(n: nat, size: int, r: nat)
    requires size >= 1
    requires n == 0 ==> r == 0
    requires n > 0 ==> (r - 1) * size < n <= r * size
    ensures r == (n + size - 1) / size
  {
    if n > 0 {
      var q := (n + size - 1) / size;
      assert q * size <= n + size - 1 < q * size + size;
      assert (q + 1) * size == q * size + size;
      assert (r - 1) * size == r * size - size;
      assert (r + 1) * size == r * size + size;
      MulLess(r, q + 1, size);
      MulLess(q, r + 1, size);
    }
  }

  /** a * c < b * c implies a < b, for positive c. */
  lemma {:induction false} MulLess(a: int, b: int, c: int)
    requires c >= 1
    ensures a * c < b * c ==> a < b
  {
    if a >= b {
      assert a * c - b * c == (a - b) * c;
      assert (a - b) * c >= 0;
    }
  }

  /** A chunk of exactly q accesses' worth of bytes takes q accesses. */
  lemma {:induction false} AccessesExact(q: nat, acc: nat)
    requires acc >= 1
    ensures Accesses(q * acc, acc) == q
    decreases q
  {
    if q > 0 {
      assert q * acc - acc == (q - 1) * acc;
      AccessesExact(q - 1, acc);
    }
  }

  /** The pairs of q whole accesses (qa = q * acc bytes) followed by `rest`
      bytes are those of the first q accesses followed by those of the rest,
      from where the first stopped. */
  lemma {:induction false} BurstSplit(src: int, dst: int, q: nat, qa: int, rest: nat, acc: nat, incSrc: bool, incDst: bool)
    requires acc >= 1 && qa == q * acc
    ensures Burst(src, dst, qa + rest, acc, incSrc, incDst) ==
      Burst(src, dst, qa, acc, incSrc, incDst) +
      Burst(Bump(src, incSrc, qa), Bump(dst, incDst, qa), rest, acc, incSrc, incDst)
    decreases q
  {
    if q == 0 {
      assert qa == 0;
    } else {
      MulStep(q, acc);
      var pa := qa - acc;
      var s1, d1 := Bump(src, incSrc, acc), Bump(dst, incDst, acc);
      var head := Burst(s1, d1, pa, acc, incSrc, incDst);
      var tail := Burst(Bump(src, incSrc, qa), Bump(dst, incDst, qa), rest, acc, incSrc, incDst);
      BurstSplit(s1, d1, q - 1, pa, rest, acc, incSrc, incDst);
      assert Bump(s1, incSrc, pa) == Bump(src, incSrc, qa);
      assert Bump(d1, incDst, pa) == Bump(dst, incDst, qa);
      BurstCons(src, dst, qa + rest, acc, incSrc, incDst);
      BurstCons(src, dst, qa, acc, incSrc, incDst);
      SeqAssoc3([Access(src, dst, acc)], head, tail);
    }
  }

  /** A chunk of positive size: its first access, then the rest of the chunk. */
  lemma {:induction false} BurstCons(src: int, dst: int, bytes: int, acc: nat, incSrc: bool, incDst: bool)
    requires acc >= 1 && bytes > 0
    ensures Burst(src, dst, bytes, acc, incSrc, incDst) ==
      [Access(src, dst, acc)] + Burst(Bump(src, incSrc, acc), Bump(dst, incDst, acc), bytes - acc, acc, incSrc, incDst)
  {
  }

  lemma {:induction false} SeqAssoc3<T>(a: seq<T>, b: seq<T>, c: seq<T>)
    ensures a + (b + c) == (a + b) + c
  {
  }

  lemma {:induction false} MulStep(q: int, acc: int)
    requires q >= 1 && acc >= 1
    ensures q * acc == (q - 1) * acc + acc && (q - 1) * acc >= 0
  {
  }

  /** Splitting a transfer into chunks does not change the accesses it makes:
      they are those of one chunk as large as the whole transfer. Chunks only
      decide when the accesses happen. */
  lemma {:induction false} CursorPlanUniform(c: Cursor)
    requires Valid(c)
    ensures CursorPlan(c) == Burst(c.src, c.dst, c.remaining, c.accSz, c.incSrc, c.incDst)
    decreases c.remaining
  {
    if c.remaining > 0 {
      var next := Advance(c);
      CursorPlanUniform(next);
      if ChunkLen(c) < c.remaining {
        var acc := c.accSz;
        AccessesExact(c.chkSz, acc);
        BurstSplit(c.src, c.dst, c.chkSz, ChunkLen(c), c.remaining - ChunkLen(c), acc, c.incSrc, c.incDst);
      }
    }
  }

  /** Every device access reads at src when the source does not advance, and
      writes at dst when the destination does not advance; access j is at
      j * accSz past the start for an address that does advance. The transfer
      makes ceil(remaining / accSz) accesses of accSz bytes each. */
  lemma {:induction false} DevAccesses(c: Cursor)
    requires Valid(c)
    ensures |CursorPlan(c)| == Accesses(c.remaining, c.accSz)
    ensures forall j :: 0 <= j < |CursorPlan(c)| ==>
      CursorPlan(c)[j] == Access(Bump(c.src, c.incSrc, j * c.accSz), Bump(c.dst, c.incDst, j * c.accSz), c.accSz)
  {
    CursorPlanUniform(c);
    BurstLength(c.src, c.dst, c.remaining, c.accSz, c.incSrc, c.incDst);
    BurstAt(c.src, c.dst, c.remaining, c.accSz, c.incSrc, c.incDst);
  }

  /** The bytes the accesses of a transfer span: what is left rounded up to
      whole accesses. */
  function RoundedUp(c: Cursor): nat
    requires Valid(c)
  {
    Accesses(c.remaining, c.accSz) * c.accSz
  }

  /** With both addresses advancing and accesses of at most 8 bytes, a device
      transfer over non-overlapping ranges is a byte-for-byte copy of
      Accesses(sz, accSz) * accSz bytes: sz rounded up to whole accesses. */
  lemma {:induction false} DevCopies(m: Mem, c: Cursor)
    requires Valid(c) && c.incSrc && c.incDst && c.accSz <= 8
    requires c.src + RoundedUp(c) <= c.dst || c.dst + RoundedUp(c) <= c.src
    ensures IsCopy(Apply(m, CursorPlan(c)), m, c.src, c.dst, RoundedUp(c))
  {
    CursorPlanUniform(c);
    BurstContiguous(c.src, c.dst, c.remaining, c.accSz);
    ContiguousCopies(m, CursorPlan(c), c.src, c.dst);
  }

  lemma {:induction false} BurstContiguous(src: int, dst: int, bytes: int, acc: nat)
    requires acc <= 8 && (bytes > 0 ==> acc >= 1)
    ensures Contiguous(Burst(src, dst, bytes, acc, true, true), src, dst)
    ensures TotalSize(Burst(src, dst, bytes, acc, true, true)) == Accesses(bytes, acc) * acc
    decreases bytes
  {
    if bytes > 0 {
      BurstContiguous(src + acc, dst + acc, bytes - acc, acc);
      var k := Accesses(bytes - acc, acc);
      assert acc + k * acc == (k + 1) * acc;
    }
  }

  /** A descriptor the engine can finish: its cursor at the start can. */
  predicate Finite(d: DevCpy)
  {
    Valid(Start(d))
  }

  ghost predicate AllFinite(xs: seq<DevCpy>)
  {
    forall k :: 0 <= k < |xs| ==> Finite(xs[k])
  }

  /** The cursors of a descriptor chain, in order. */
  function Starts(xs: seq<DevCpy>): (cs: seq<Cursor>)
    decreases |xs|
    ensures |cs| == |xs|
    ensures AllFinite(xs) ==> AllValid(cs)
  {
    if xs == [] then []
    else
      var rest := Starts(xs[1..]);
      assert ([Start(xs[0])] + rest)[1..] == rest;
      assert AllFinite(xs) ==> Finite(xs[0]) && AllFinite(xs[1..]) by {
        if AllFinite(xs) {
          forall k | 0 <= k < |xs[1..]| ensures Finite(xs[1..][k]) {
            assert xs[1..][k] == xs[k + 1];
          }
        }
      }
      [Start(xs[0])] + rest
  }

  /** Every cursor of the chain can finish. */
  ghost predicate AllValid(cs: seq<Cursor>)
    decreases |cs|
  {
    cs == [] || (Valid(cs[0]) && AllValid(cs[1..]))
  }

  /** Device requests a chain still needs: the sum of its descriptors' chunks. */
  function TotalChunks(cs: seq<Cursor>): nat
    requires AllValid(cs)
    decreases |cs|
  {
    if cs == [] then 0 else ChunksLeft(cs[0]) + TotalChunks(cs[1..])
  }

  /** Every pair a chain still issues: each descriptor's, in order. */
  function DevChainPlan(cs: seq<Cursor>): seq<Access>
    requires AllValid(cs)
    decreases |cs|
  {
    if cs == [] then [] else CursorPlan(cs[0]) + DevChainPlan(cs[1..])
  }

  /** A chain's pairs, one entry per chunk, hence one per device request. */
  function ChainChunks(cs: seq<Cursor>): (r: seq<seq<Access>>)
    requires AllValid(cs)
    decreases |cs|
    ensures |r| == TotalChunks(cs)
  {
    if cs == [] then [] else CursorChunks(cs[0]) + ChainChunks(cs[1..])
  }

  /** Chunk by chunk, a chain issues exactly its plan. */
  lemma {:induction false} ChainChunksPlan(cs: seq<Cursor>)
    requires AllValid(cs)
    ensures Flatten(ChainChunks(cs)) == DevChainPlan(cs)
    decreases |cs|
  {
    if cs != [] {
      ChainChunksPlan(cs[1..]);
      CursorChunksPlan(cs[0]);
      FlattenAppend(CursorChunks(cs[0]), ChainChunks(cs[1..]));
    }
  }

  /** The pairs of the first k chunks of a chain: what the engine has issued
      once the device has paid for k chunks. */
  function ChunkPairs(cs: seq<Cursor>, k: nat): seq<Access>
    requires AllValid(cs) && k <= TotalChunks(cs)
  {
    Flatten(ChainChunks(cs)[..k])
  }

  /** The first k chunks' pairs, then those of the chunks after them, make the
      chain's plan: they are a prefix of it, and all of it once every chunk
      is paid for. */
  lemma {:induction false} ChunkPairsPlan(cs: seq<Cursor>, k: nat)
    requires AllValid(cs) && k <= TotalChunks(cs)
    ensures ChunkPairs(cs, k) + Flatten(ChainChunks(cs)[k..]) == DevChainPlan(cs)
    ensures ChunkPairs(cs, k) <= DevChainPlan(cs)
    ensures k == TotalChunks(cs) ==> ChunkPairs(cs, k) == DevChainPlan(cs)
  {
    var xs := ChainChunks(cs);
    assert xs == xs[..k] + xs[k..];
    FlattenAppend(xs[..k], xs[k..]);
    ChainChunksPlan(cs);
    IssuedPrefix(ChunkPairs(cs, k), Flatten(xs[k..]), DevChainPlan(cs));
    if k == TotalChunks(cs) {
      assert xs[k..] == [];
    }
  }

  /** The requests a chain needs are its first descriptor's chunks plus the
      rest's; its pairs are the first descriptor's followed by the rest's. */
  lemma {:induction false} ChainCons(c: Cursor, tail: seq<Cursor>)
    requires Valid(c) && AllValid(tail)
    ensures AllValid([c] + tail)
    ensures TotalChunks([c] + tail) == ChunksLeft(c) + TotalChunks(tail)
    ensures DevChainPlan([c] + tail) == CursorPlan(c) + DevChainPlan(tail)
    ensures ChainChunks([c] + tail) == CursorChunks(c) + ChainChunks(tail)
  {
    assert ([c] + tail)[1..] == tail;
  }

  /** What is left of a chain after its first descriptor stopped at `last`:
      nothing more of that descriptor if it is finished. */
  function Pending(last: Cursor, tail: seq<Cursor>): seq<Cursor>
  {
    if last.remaining > 0 then [last] + tail else tail
  }

  /** Dropping a finished descriptor changes neither the requests nor the
      pairs still to come. */
  lemma {:induction false} PendingCons(last: Cursor, tail: seq<Cursor>)
    requires Valid(last) && AllValid(tail)
    ensures AllValid(Pending(last, tail))
    ensures TotalChunks(Pending(last, tail)) == ChunksLeft(last) + TotalChunks(tail)
    ensures DevChainPlan(Pending(last, tail)) == CursorPlan(last) + DevChainPlan(tail)
    ensures ChainChunks(Pending(last, tail)) == CursorChunks(last) + ChainChunks(tail)
  {
    ChainCons(last, tail);
    if last.remaining == 0 {
      assert CursorPlan(last) + DevChainPlan(tail) == DevChainPlan(tail);
      assert CursorChunks(last) + ChainChunks(tail) == ChainChunks(tail);
    }
  }

  lemma {:induction false} SeqAssoc<T>(a: seq<T>, b: seq<T>, c: seq<T>, d: seq<T>)
    ensures (a + b) + (c + d) == a + ((b + c) + d)
  {
  }

  /** What a chain issued so far is a prefix of all it issues. */
  lemma {:induction false} IssuedPrefix(issued: seq<Access>, pending: seq<Access>, whole: seq<Access>)
    requires issued + pending == whole
    ensures issued <= whole
  {
    assert whole[..|issued|] == issued;
  }


  /** One chunk keeps "pairs issued, then pairs still to issue, make the
      descriptor's plan", and leaves one request fewer to wait for. */
  lemma {:induction false} ChunkProgress(fired: seq<Access>, whole: seq<Access>, c: Cursor)
    requires Valid(c) && c.remaining > 0 && fired + CursorPlan(c) == whole
    ensures ChunksLeft(Advance(c)) == ChunksLeft(c) - 1
    ensures (fired + ChunkAccesses(c)) + CursorPlan(Advance(c)) == whole
  {
    assert (fired + ChunkAccesses(c)) + CursorPlan(Advance(c)) == fired + CursorPlan(c);
  }

  /** One access of a chunk keeps "pairs issued, then pairs still to issue,
      make the chunk", and moves each address that advances by acc. */
  lemma {:induction false} BurstProgress(done: seq<Access>, whole: seq<Access>, s: int, d: int, bytes: int,
                      acc: nat, incSrc: bool, incDst: bool, src0: int, dst0: int)
    requires acc >= 1 && bytes > 0
    requires done + Burst(s, d, bytes, acc, incSrc, incDst) == whole
    requires s == Bump(src0, incSrc, |done| * acc) && d == Bump(dst0, incDst, |done| * acc)
    ensures (done + [Access(s, d, acc)]) +
      Burst(Bump(s, incSrc, acc), Bump(d, incDst, acc), bytes - acc, acc, incSrc, incDst) == whole
    ensures Bump(s, incSrc, acc) == Bump(src0, incSrc, (|done| + 1) * acc)
    ensures Bump(d, incDst, acc) == Bump(dst0, incDst, (|done| + 1) * acc)
  {
    var rest := Burst(Bump(s, incSrc, acc), Bump(d, incDst, acc), bytes - acc, acc, incSrc, incDst);
    assert Burst(s, d, bytes, acc, incSrc, incDst) == [Access(s, d, acc)] + rest;
    assert (done + [Access(s, d, acc)]) + rest == done + ([Access(s, d, acc)] + rest);
    MulStep(|done| + 1, acc);
  }

  /** A chain of one descriptor needs that descriptor's requests and issues
      that descriptor's pairs. */
  lemma {:induction false} SingleChain(d: DevCpy)
    requires Finite(d)
    ensures AllFinite([d])
    ensures TotalChunks(Starts([d])) == ChunksLeft(Start(d))
    ensures DevChainPlan(Starts([d])) == CursorPlan(Start(d))
    ensures ChainChunks(Starts([d])) == CursorChunks(Start(d))
  {
    assert Starts([d]) == [Start(d)] + Starts([]);
    assert Starts([d])[1..] == [];
  }

  /** 32 bytes in accesses of 8 bytes, 2 accesses per chunk: two chunks, two
      requests, of two consecutive words each. */
  lemma {:induction false} MultiAccessChunk()
    ensures var c := Cursor(0x1000, 0x2000, 32, 8, 2, true, true);
      && ChunksLeft(c) == 2
      && ChunkAccesses(c) == [Access(0x1000, 0x2000, 8), Access(0x1008, 0x2008, 8)]
      && ChunkAccesses(Advance(c)) == [Access(0x1010, 0x2010, 8), Access(0x1018, 0x2018, 8)]
      && Advance(Advance(c)).remaining == 0
  {
    var c := Cursor(0x1000, 0x2000, 32, 8, 2, true, true);
    ChunksLeftCeil(c);
    BurstCons(0x1000, 0x2000, 16, 8, true, true);
    BurstCons(0x1008, 0x2008, 8, 8, true, true);
    assert Accesses(16, 8) == 2;
    BurstCons(0x1010, 0x2010, 16, 8, true, true);
    BurstCons(0x1018, 0x2018, 8, 8, true, true);
  }

  /** Two descriptors of 16 bytes in single 8-byte accesses per chunk, under
      one request id: four requests in all. */
  lemma {:induction false} TwoDescriptorChain()
    ensures var xs := [DevCpy(0x1000, 0x2000, 16, 8, 1, true, true),
                       DevCpy(0x3000, 0x4000, 16, 8, 1, true, true)];
      TotalChunks(Starts(xs)) == 4
  {
    var xs := [DevCpy(0x1000, 0x2000, 16, 8, 1, true, true),
               DevCpy(0x3000, 0x4000, 16, 8, 1, true, true)];
    assert xs[1..][1..] == [];
    ChunksLeftCeil(Start(xs[0]));
    ChunksLeftCeil(Start(xs[1]));
  }

  /** One 8-byte access per chunk: a transfer of n words takes exactly n
      chunks, hence n requests. */
  lemma {:induction false} WordChunks(src: int, dst: int, n: nat, incSrc: bool, incDst: bool)
    ensures ChunksLeft(Cursor(src, dst, 8 * n, 8, 1, incSrc, incDst)) == n
  {
    ChunksLeftCeil(Cursor(src, dst, 8 * n, 8, 1, incSrc, incDst));
    assert (8 * n + 8 - 1) / 8 == n;
  }
}
