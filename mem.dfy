/** The memory behind the engine's `mem` port, with the semantics of the
    byte-addressed mock memory the unit tests bind to it: a read returns the
    eight bytes at an address as one little-endian word, a write stores the
    low `size` bytes of a word. Addresses that were never written read as 0. */
module Memory {

  type Byte = x: int | 0 <= x < 256

  /** Byte storage: address -> byte. */
  type Mem = map<int, Byte>

  function Get(m: Mem, addr: int): Byte
  {
    if addr in m then m[addr] else 0
  }

  /** 256 to the power n: the values n bytes can hold. */
  function Span(n: nat): nat
    decreases n
  {
    if n == 0 then 1 else 256 * Span(n - 1)
  }

  /** The little-endian value of the n bytes starting at addr. */
  function Word(m: Mem, addr: int, n: nat): nat
    decreases n
  {
    if n == 0 then 0 else Get(m, addr) + 256 * Word(m, addr + 1, n - 1)
  }

  /** n bytes hold a value below 256 to the power n. */
  lemma {:induction false} WordBound(m: Mem, addr: int, n: nat)
    ensures Word(m, addr, n) < Span(n)
    decreases n
  {
    if n > 0 {
      WordBound(m, addr + 1, n - 1);
    }
  }

  /** The port's read: always a full 8-byte word. */
  function Read(m: Mem, addr: int): (r: nat)
    ensures r < 0x1_0000_0000_0000_0000
  {
    WordBound(m, addr, 8);
    Word(m, addr, 8)
  }

  /** `(data >> (i * 8)) & 0xFF` for a non-negative word. */
  function ByteOf(data: nat, i: nat): Byte
    decreases i
  {
    if i == 0 then data % 256 else ByteOf(data / 256, i - 1)
  }

  /** The port's write: byte i of data goes to addr + i, for i < size. */
  function Write(m: Mem, addr: int, data: nat, size: nat): Mem
  {
    WriteFrom(m, addr, data, 0, size)
  }

  /** The write's loop over i = from .. size-1. */
  function WriteFrom(m: Mem, addr: int, data: nat, from: nat, size: nat): Mem
    decreases size - from
  {
    if from >= size then m else WriteFrom(m[addr + from := ByteOf(data, from)], addr, data, from + 1, size)
  }

  lemma {:induction false} WriteFromAt(m: Mem, addr: int, data: nat, from: nat, size: nat, x: int)
    ensures x in WriteFrom(m, addr, data, from, size) <==> x in m || addr + from <= x < addr + size
    ensures Get(WriteFrom(m, addr, data, from, size), x) ==
      if addr + from <= x < addr + size then ByteOf(data, x - addr) else Get(m, x)
    decreases size - from
  {
    if from < size {
      WriteFromAt(m[addr + from := ByteOf(data, from)], addr, data, from + 1, size, x);
    }
  }

  /** One read/write pair the engine issues: read at src, write size bytes at dst. */
  datatype Access = Access(src: int, dst: int, size: nat)

  function Perform(m: Mem, a: Access): Mem
  {
    Write(m, a.dst, Read(m, a.src), a.size)
  }

  /** The memory after a sequence of read/write pairs, issued in order. */
  function Apply(m: Mem, accs: seq<Access>): Mem
    decreases |accs|
  {
    if accs == [] then m else Apply(Perform(m, accs[0]), accs[1..])
  }

  /** Total number of bytes written by a sequence of pairs. */
  function TotalSize(accs: seq<Access>): nat
    decreases |accs|
  {
    if accs == [] then 0 else accs[0].size + TotalSize(accs[1..])
  }

  lemma {:induction false} ByteOfZero(i: nat)
    ensures ByteOf(0, i) == 0
    decreases i
  {
    if i > 0 {
      ByteOfZero(i - 1);
    }
  }

  /** Writing back byte i of a word read from memory gives the byte stored at
      addr + i; beyond the word's n bytes it gives 0. */
  lemma {:induction false} WordByte(m: Mem, addr: int, n: nat, i: nat)
    ensures ByteOf(Word(m, addr, n), i) == if i < n then Get(m, addr + i) else 0
    decreases n
  {
    if n == 0 {
      ByteOfZero(i);
    } else {
      var b, w := Get(m, addr), Word(m, addr + 1, n - 1);
      assert Word(m, addr, n) == b + 256 * w;
      assert (b + 256 * w) % 256 == b;
      assert (b + 256 * w) / 256 == w;
      if i > 0 {
        WordByte(m, addr + 1, n - 1, i - 1);
      }
    }
  }

  /** One read/write pair copies the low min(size, 8) bytes from src to dst,
      writes 0 to any bytes beyond the eighth, and leaves every other address
      as it was. */
  lemma {:induction false} PerformAt(m: Mem, a: Access, x: int)
    ensures x in Perform(m, a) <==> x in m || a.dst <= x < a.dst + a.size
    ensures Get(Perform(m, a), x) ==
      if a.dst <= x < a.dst + a.size then
        (if x - a.dst < 8 then Get(m, a.src + (x - a.dst)) else 0)
      else Get(m, x)
  {
    WriteFromAt(m, a.dst, Read(m, a.src), 0, a.size, x);
    if a.dst <= x < a.dst + a.size {
      WordByte(m, a.src, 8, x - a.dst);
    }
  }

  lemma {:induction false} ApplyAppend(m: Mem, p: seq<Access>, q: seq<Access>)
    ensures Apply(m, p + q) == Apply(Apply(m, p), q)
    decreases |p|
  {
    if p == [] {
      assert p + q == q;
    } else {
      assert (p + q)[0] == p[0];
      assert (p + q)[1..] == p[1..] + q;
      ApplyAppend(Perform(m, p[0]), p[1..], q);
    }
  }

  /** r and m agree, in presence and in value, on every address outside lo .. hi-1. */
  ghost predicate SameOutside(r: Mem, m: Mem, lo: int, hi: int)
  {
    forall x {:trigger Get(r, x)} {:trigger x in r} ::
      !(lo <= x < hi) ==> (x in r <==> x in m) && Get(r, x) == Get(m, x)
  }

  /** The byte at offset i from base. */
  function At(m: Mem, base: int, i: int): Byte
  {
    Get(m, base + i)
  }

  /** The meaning of a copy of n bytes: r holds at dst .. dst+n-1 the bytes m
      holds at src .. src+n-1, and agrees with m everywhere else. */
  ghost predicate IsCopy(r: Mem, m: Mem, src: int, dst: int, n: nat)
  {
    && (forall i {:trigger At(r, dst, i)} :: 0 <= i < n ==> At(r, dst, i) == At(m, src, i))
    && (forall x {:trigger x in r} :: x in r <==> x in m || dst <= x < dst + n)
    && (forall x {:trigger Get(r, x)} :: !(dst <= x < dst + n) ==> Get(r, x) == Get(m, x))
  }

  /** Pairs that move consecutive pieces of at most 8 bytes, starting at src
      and dst, each piece following the previous one. */
  ghost predicate Contiguous(accs: seq<Access>, src: int, dst: int)
    decreases |accs|
  {
    accs == [] ||
    (1 <= accs[0].size <= 8 && accs[0].src == src && accs[0].dst == dst &&
     Contiguous(accs[1..], src + accs[0].size, dst + accs[0].size))
  }

  /** Contiguous pairs from dst on write only inside dst .. dst+total-1:
      every other address keeps its presence and its byte. */
  lemma {:induction false} ContiguousFrame(m: Mem, accs: seq<Access>, src: int, dst: int)
    requires Contiguous(accs, src, dst)
    ensures SameOutside(Apply(m, accs), m, dst, dst + TotalSize(accs))
    decreases |accs|
  {
    if accs != [] {
      var a, m1 := accs[0], Perform(m, accs[0]);
      ContiguousFrame(m1, accs[1..], src + a.size, dst + a.size);
      forall x | !(dst <= x < dst + TotalSize(accs))
        ensures (x in m1 <==> x in m) && Get(m1, x) == Get(m, x)
      {
        PerformAt(m, a, x);
      }
    }
  }

  /** Byte i of the first piece: the pair itself copied it. */
  lemma {:induction false} CopyHead(m: Mem, a: Access, r: Mem, i: int)
    requires 1 <= a.size <= 8 && 0 <= i < a.size
    requires Get(r, a.dst + i) == Get(Perform(m, a), a.dst + i)
    ensures At(r, a.dst, i) == At(m, a.src, i)
  {
    PerformAt(m, a, a.dst + i);
  }

  /** Byte i past the first piece: the rest copied it from a source byte the
      first pair did not overwrite. */
  lemma {:induction false} CopyTail(m: Mem, a: Access, r: Mem, k: nat, i: int)
    requires a.size <= i < a.size + k
    requires a.src + a.size + k <= a.dst || a.dst + a.size + k <= a.src
    requires At(r, a.dst + a.size, i - a.size) == At(Perform(m, a), a.src + a.size, i - a.size)
    ensures At(r, a.dst, i) == At(m, a.src, i)
  {
    PerformAt(m, a, a.src + i);
  }

  /** Copying the first piece and then the rest is copying the whole. */
  lemma {:induction false} CopyExtend(m: Mem, a: Access, r: Mem, k: nat)
    requires 1 <= a.size <= 8
    requires a.src + a.size + k <= a.dst || a.dst + a.size + k <= a.src
    requires IsCopy(r, Perform(m, a), a.src + a.size, a.dst + a.size, k)
    ensures IsCopy(r, m, a.src, a.dst, a.size + k)
  {
    var n := a.size + k;
    forall i | 0 <= i < n
      ensures At(r, a.dst, i) == At(m, a.src, i)
    {
      if i < a.size {
        CopyHead(m, a, r, i);
      } else {
        CopyTail(m, a, r, k, i);
      }
    }
    forall x
      ensures x in r <==> x in m || a.dst <= x < a.dst + n
      ensures !(a.dst <= x < a.dst + n) ==> Get(r, x) == Get(m, x)
    {
      PerformAt(m, a, x);
    }
  }

  /** A contiguous run of pairs over non-overlapping source and destination
      ranges is a byte-for-byte copy. */
  lemma {:induction false} ContiguousCopies(m: Mem, accs: seq<Access>, src: int, dst: int)
    requires Contiguous(accs, src, dst)
    requires src + TotalSize(accs) <= dst || dst + TotalSize(accs) <= src
    ensures IsCopy(Apply(m, accs), m, src, dst, TotalSize(accs))
    decreases |accs|
  {
    if accs != [] {
      var a, rest := accs[0], accs[1..];
      ContiguousCopies(Perform(m, a), rest, a.src + a.size, a.dst + a.size);
      CopyExtend(m, a, Apply(Perform(m, a), rest), TotalSize(rest));
    }
  }
}
