/** How memcpy splits a copy into read/write pairs: each pair uses the widest
    access (8, 4, 2 or 1 bytes) that the source address is aligned to and that
    does not exceed the bytes still to copy. */
module Planner {
  import opened Memory
  import opened Op

  /** The width of the next memcpy access. It depends on the low three bits of
      the source address and on the bytes remaining, never on the destination. */
  function AccessWidth(src: int, remaining: int): (w: nat)
    ensures w == 8 || w == 4 || w == 2 || w == 1
    ensures remaining >= 1 ==> w <= remaining
  {
    var align := src % 8;  // the low three bits, src & 0x7
    if align == 0 && remaining >= 8 then 8
    else if align % 4 == 0 && remaining >= 4 then 4
    else if align % 2 == 0 && remaining >= 2 then 2
    else 1
  }

  /** memcpy picks the widest of 8, 4, 2 and 1 bytes that the source address
      is aligned to and that does not exceed the bytes remaining. */
  lemma {:induction false} WidthChoice(src: int, remaining: int)
    ensures var w := AccessWidth(src, remaining);
      && (w == 8 ==> src % 8 == 0)
      && (w == 4 ==> src % 4 == 0)
      && (w == 2 ==> src % 2 == 0)
      && (w < 8 ==> !(src % 8 == 0 && remaining >= 8))
      && (w < 4 ==> !(src % 4 == 0 && remaining >= 4))
      && (w < 2 ==> !(src % 2 == 0 && remaining >= 2))
  {
    LowBits(src);
  }

  /** Alignment to 4 and to 2 can be read off the low three bits. */
  lemma {:induction false} LowBits(src: int)
    ensures src % 4 == (src % 8) % 4
    ensures src % 2 == (src % 8) % 2
  {
    var q, r := src / 8, src % 8;
    SmallMultiple(src / 4 - 2 * q - r / 4, 4, r % 4 - src % 4);
    SmallMultiple(src / 2 - 4 * q - r / 2, 2, r % 2 - src % 2);
  }

  /** A multiple of b strictly between -b and b is zero. */
  lemma {:induction false} SmallMultiple(k: int, b: int, d: int)
    requires b > 0 && d == b * k && -b < d < b
    ensures d == 0
  {
    MulSign(k, b);
  }

  /** A positive multiple of b is at least b, a negative one at most -b. */
  lemma {:induction false} MulSign(k: int, b: int)
    requires b > 0
    ensures k >= 1 ==> b * k >= b
    ensures k <= -1 ==> b * k <= -b
  {
    if k >= 1 {
      assert b * k == b * (k - 1) + b;
      assert b * (k - 1) >= 0;
    } else if k <= -1 {
      assert b * k == b * (k + 1) - b;
      assert b * (k + 1) <= 0;
    }
  }

  /** The read/write pairs memcpy(src, dst, n) issues, in order. */
  function Plan(src: int, dst: int, n: nat): (p: seq<Access>)
    decreases n
    ensures p == [] <==> n == 0
  {
    if n == 0 then []
    else
      var w := AccessWidth(src, n);
      [Access(src, dst, w)] + Plan(src + w, dst + w, n - w)
  }

  /** Every pair is 1, 2, 4 or 8 bytes wide and its source address is a
      multiple of its width. */
  ghost predicate Aligned(accs: seq<Access>)
    decreases |accs|
  {
    accs == [] ||
    (accs[0].size in {1, 2, 4, 8} && accs[0].src % accs[0].size == 0 && Aligned(accs[1..]))
  }

  /** The widths memcpy uses add up to exactly n; each access starts where the
      previous one ended, so source and destination each advance by n; every
      access is 1, 2, 4 or 8 bytes wide and aligned to its width at the source. */
  lemma {:induction false} PlanShape(src: int, dst: int, n: nat)
    ensures var p := Plan(src, dst, n);
      TotalSize(p) == n && Contiguous(p, src, dst) && Aligned(p)
    decreases n
  {
    if n > 0 {
      var w := AccessWidth(src, n);
      var p, rest := Plan(src, dst, n), Plan(src + w, dst + w, n - w);
      PlanShape(src + w, dst + w, n - w);
      WidthChoice(src, n);
      assert p[0] == Access(src, dst, w) && p[1..] == rest;
    }
  }

  /** For non-overlapping ranges, memcpy is a byte-for-byte copy of n bytes,
      whatever the alignment of src and dst. */
  lemma {:induction false} MemcpyCopies(m: Mem, src: int, dst: int, n: nat)
    requires src + n <= dst || dst + n <= src
    ensures IsCopy(Apply(m, Plan(src, dst, n)), m, src, dst, n)
  {
    PlanShape(src, dst, n);
    ContiguousCopies(m, Plan(src, dst, n), src, dst);
  }

  /** Whatever the overlap, memcpy changes nothing outside dst .. dst+n-1. */
  lemma {:induction false} MemcpyFrame(m: Mem, src: int, dst: int, n: nat)
    ensures SameOutside(Apply(m, Plan(src, dst, n)), m, dst, dst + n)
  {
    PlanShape(src, dst, n);
    ContiguousFrame(m, Plan(src, dst, n), src, dst);
  }

  /** From an 8-byte aligned source, a copy of a multiple of 8 bytes uses only
      8-byte accesses, n / 8 of them. */
  lemma {:induction false} AlignedPlan(src: int, dst: int, n: nat)
    requires src % 8 == 0 && n % 8 == 0
    ensures |Plan(src, dst, n)| == n / 8
    ensures forall k :: 0 <= k < |Plan(src, dst, n)| ==> Plan(src, dst, n)[k].size == 8
    decreases n
  {
    if n > 0 {
      assert AccessWidth(src, n) == 8;
      AlignedPlan(src + 8, dst + 8, n - 8);
    }
  }

  /** One step of memcpy's loop: the next pair, then the rest of the copy. */
  lemma {:induction false} PlanStep(src: int, dst: int, n: nat, w: nat)
    requires n > 0 && AccessWidth(src, n) == w
    ensures Plan(src, dst, n) == [Access(src, dst, w)] + Plan(src + w, dst + w, n - w)
  {
  }

  /** One turn of memcpy's loop keeps "pairs issued, then pairs still to
      issue, make the whole plan". */
  lemma {:induction false} PlanProgress(done: seq<Access>, whole: seq<Access>, s: int, d: int, remaining: nat)
    requires remaining > 0 && done + Plan(s, d, remaining) == whole
    ensures var w := AccessWidth(s, remaining);
      w <= remaining && (done + [Access(s, d, w)]) + Plan(s + w, d + w, remaining - w) == whole
  {
    var w := AccessWidth(s, remaining);
    PlanStep(s, d, remaining, w);
    assert (done + [Access(s, d, w)]) + Plan(s + w, d + w, remaining - w) == done + Plan(s, d, remaining);
  }

  /** Copying 11 bytes from 0x1001 uses widths 1, 2, 4, 4. */
  lemma {:induction false} UnalignedPlan()
    ensures Plan(0x1001, 0x2001, 11) ==
      [Access(0x1001, 0x2001, 1), Access(0x1002, 0x2002, 2),
       Access(0x1004, 0x2004, 4), Access(0x1008, 0x2008, 4)]
  {
    PlanStep(0x1001, 0x2001, 11, 1);
    PlanStep(0x1002, 0x2002, 10, 2);
    PlanStep(0x1004, 0x2004, 8, 4);
    PlanStep(0x1008, 0x2008, 4, 4);
  }

  /** The read/write pairs of a memcpy chain: each descriptor's pairs, in list order. */
  function ChainPlan(xs: seq<MemCpy>): (p: seq<Access>)
    decreases |xs|
    ensures p == [] <==> forall k :: 0 <= k < |xs| ==> xs[k].sz == 0
  {
    if xs == [] then [] else Plan(xs[0].src, xs[0].dst, xs[0].sz) + ChainPlan(xs[1..])
  }

  /** The memory after running memcpy on each descriptor in list order. */
  function MemcpyAll(m: Mem, xs: seq<MemCpy>): Mem
    decreases |xs|
  {
    if xs == [] then m else MemcpyAll(Apply(m, Plan(xs[0].src, xs[0].dst, xs[0].sz)), xs[1..])
  }

  /** The pairs a memcpy chain issues have, together, the effect of one memcpy
      per descriptor in list order. */
  lemma {:induction false} ChainPlanSequential(m: Mem, xs: seq<MemCpy>)
    ensures Apply(m, ChainPlan(xs)) == MemcpyAll(m, xs)
    decreases |xs|
  {
    if xs != [] {
      var p := Plan(xs[0].src, xs[0].dst, xs[0].sz);
      ApplyAppend(m, p, ChainPlan(xs[1..]));
      ChainPlanSequential(Apply(m, p), xs[1..]);
    }
  }
}
