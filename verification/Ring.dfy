/** Arithmetic of the mailbox's circular buffer: positions that only ever grow,
    and the buffer index each one stands for. */
module Ring {

  const SENTINEL_SIZE: nat := 4
  const LENGTH_SIZE: nat := 8
  const WORD_32: nat := 0x1_0000_0000

  type Byte = b: nat | b < 256

  /** The buffer index `a % cap` of absolute position `a`, by laps. */
  function Index(a: nat, cap: nat): (i: nat)
    requires cap > 0
    ensures i < cap
  {
    if a < cap then a else Index(a - cap, cap)
  }

  lemma {:induction false} IndexIsMod(a: nat, cap: nat)
    requires cap > 0
    ensures Index(a, cap) == a % cap
  {
    if a >= cap {
      IndexIsMod(a - cap, cap);
      var q := (a - cap) / cap;
      assert a == (q + 1) * cap + Index(a, cap);
      DivModUnique(a, q + 1, Index(a, cap), cap);
    }
  }

  lemma MulOrder(m: int, n: int, cap: nat)
    requires m < n
    ensures m * cap + cap <= n * cap
  {
    assert (n - m - 1) * cap >= 0;
  }

  /** Quotient and remainder are determined by the division equation. */
  lemma DivModUnique(a: nat, q: nat, r: nat, cap: nat)
    requires cap > 0 && a == q * cap + r && r < cap
    ensures a % cap == r && a / cap == q
  {
    var q', r' := a / cap, a % cap;
    assert a == q' * cap + r' && 0 <= r' < cap;
    if q' > q { MulOrder(q, q', cap); }
    if q' < q { MulOrder(q', q, cap); }
  }

  /** Positions less than a whole turn apart have different indices. */
  lemma {:induction false} IndexInjective(a: nat, b: nat, cap: nat)
    requires cap > 0 && a <= b < a + cap && Index(a, cap) == Index(b, cap)
    ensures a == b
  {
    if a >= cap { IndexInjective(a - cap, b - cap, cap); }
  }

  /** Wrapping early or late gives the same index. */
  lemma {:induction false} IndexAdd(a: nat, n: nat, cap: nat)
    requires cap > 0
    ensures Index(Index(a, cap) + n, cap) == Index(a + n, cap)
  {
    if a >= cap { IndexAdd(a - cap, n, cap); }
  }

  /** An aligned position has an aligned index, so an aligned word never wraps. */
  lemma {:induction false} IndexAligned(a: nat, cap: nat)
    requires cap > 0 && cap % 4 == 0 && a % 4 == 0
    ensures Index(a, cap) % 4 == 0 && Index(a, cap) + SENTINEL_SIZE <= cap
  {
    if a >= cap { IndexAligned(a - cap, cap); }
  }

  // ----- the packed index word -----

  /** `pack_indices` */
  function Pack(read: nat, write: nat): nat
    requires read < WORD_32 && write < WORD_32
  {
    read * WORD_32 + write
  }

  /** `unpack_indices` */
  function ReadIndex(packed: nat): nat {
    packed / WORD_32
  }

  function WriteIndex(packed: nat): nat {
    packed % WORD_32
  }

  lemma UnpackPack(read: nat, write: nat)
    requires read < WORD_32 && write < WORD_32
    ensures ReadIndex(Pack(read, write)) == read && WriteIndex(Pack(read, write)) == write
  {
    DivModUnique(Pack(read, write), read, write, WORD_32);
  }

  /** `used_bytes` */
  function UsedBytes(read: nat, write: nat, cap: nat): nat
    requires read < cap && write < cap
  {
    if write >= read then write - read else write + (cap - read)
  }

  /** The indices tell the number of bytes in use exactly, so long as the
      buffer is never completely full. */
  lemma UsedIsDistance(base: nat, end: nat, cap: nat)
    requires cap > 0 && base <= end < base + cap
    ensures UsedBytes(Index(base, cap), Index(end, cap), cap) == end - base
  {
    var r := Index(base, cap);
    var n := end - base;
    IndexAdd(base, n, cap);
    assert r + n >= cap ==> Index(r + n - cap, cap) == r + n - cap;
  }

  // ----- little-endian words -----

  function Bytes(x: nat, n: nat): (s: seq<Byte>)
    ensures |s| == n
  {
    if n == 0 then [] else [x % 256] + Bytes(x / 256, n - 1)
  }

  function Word(s: seq<Byte>): nat {
    if s == [] then 0 else s[0] + 256 * Word(s[1..])
  }

  function Pow256(n: nat): nat {
    if n == 0 then 1 else 256 * Pow256(n - 1)
  }

  /** A word survives being laid out as bytes and read back. */
  lemma {:induction false} WordBytes(x: nat, n: nat)
    requires x < Pow256(n)
    ensures Word(Bytes(x, n)) == x
  {
    if n > 0 {
      WordBytes(x / 256, n - 1);
      assert Bytes(x, n)[1..] == Bytes(x / 256, n - 1);
    }
  }

  // ----- copies that go round the end of the buffer -----

  /** `data` laid over the ring from index `start` on. */
  function Overlay(buf: seq<Byte>, start: nat, data: seq<Byte>): (r: seq<Byte>)
    requires start < |buf| && |data| <= |buf|
    ensures |r| == |buf|
  {
    seq(|buf|, i requires 0 <= i < |buf| =>
      var back := if i >= start then i - start else i + |buf| - start;
      if back < |data| then data[back] else buf[i])
  }

  /** Byte `k` of the data lands `k` places on, round the end if need be, and
      the rest of the ring is untouched. */
  lemma OverlayAt(buf: seq<Byte>, start: nat, data: seq<Byte>, k: nat)
    requires start < |buf| && |data| <= |buf| && k < |buf|
    ensures Overlay(buf, start, data)[Index(start + k, |buf|)] ==
      if k < |data| then data[k] else buf[Index(start + k, |buf|)]
  {
    WrapOnce(start, k, |buf|);
  }

  lemma WrapOnce(start: nat, k: nat, cap: nat)
    requires start < cap && k < cap
    ensures Index(start + k, cap) == if start + k < cap then start + k else start + k - cap
  {
    assert start + k >= cap ==> Index(start + k - cap, cap) == start + k - cap;
  }

  /** The ring buffer of one mailbox. */
  class RingBuffer {
    const buf: array<Byte>

    constructor (capacity: nat)
      requires capacity % SENTINEL_SIZE == 0
      ensures fresh(buf) && buf.Length == capacity && forall i :: 0 <= i < capacity ==> buf[i] == 0
    {
      buf := new Byte[capacity](_ => 0);
    }

    /** `put_in_mailbox_with_rotation` */
    method Put(data: seq<Byte>, start: nat)
      requires start < buf.Length && |data| <= buf.Length
      modifies buf
      ensures buf[..] == Overlay(old(buf[..]), start, data)
    {
      if start + |data| <= buf.Length {
        CopyIn(data, start);
      } else {
        var rotate := buf.Length - start;
        CopyIn(data[..rotate], start);
        CopyIn(data[rotate..], 0);
      }
    }

    method CopyIn(data: seq<Byte>, start: nat)
      requires start + |data| <= buf.Length
      modifies buf
      ensures buf[..] == old(buf[..])[..start] + data + old(buf[..])[start + |data|..]
    {
      var i := 0;
      while i < |data|
        invariant 0 <= i <= |data|
        invariant buf[..] == old(buf[..])[..start] + data[..i] + old(buf[..])[start + i..]
      {
        buf[start + i] := data[i];
        i := i + 1;
      }
    }

    /** `clear_mailbox_with_rotation` */
    method Clear(len: nat, start: nat)
      requires start < buf.Length && len <= buf.Length
      modifies buf
      ensures buf[..] == Overlay(old(buf[..]), start, seq(len, _ => 0))
    {
      Put(seq(len, _ => 0), start);
    }

    /** `get_from_mailbox_with_rotation` */
    method Get(start: nat, len: nat) returns (data: seq<Byte>)
      requires start < buf.Length && len <= buf.Length
      ensures |data| == len && forall k :: 0 <= k < len ==> data[k] == buf[Index(start + k, buf.Length)]
    {
      if start + len <= buf.Length {
        data := buf[start..start + len];
        forall k | 0 <= k < len ensures data[k] == buf[Index(start + k, buf.Length)] {
          WrapOnce(start, k, buf.Length);
        }
      } else {
        var rotate := buf.Length - start;
        data := buf[start..] + buf[..len - rotate];
        forall k | 0 <= k < len ensures data[k] == buf[Index(start + k, buf.Length)] {
          WrapOnce(start, k, buf.Length);
        }
      }
    }
  }

  /** What was put can be got back, wherever it went round. */
  lemma OverlayReadBack(buf: seq<Byte>, start: nat, data: seq<Byte>)
    requires start < |buf| && |data| <= |buf|
    ensures forall k :: 0 <= k < |data| ==> Overlay(buf, start, data)[Index(start + k, |buf|)] == data[k]
  {
    forall k | 0 <= k < |data|
      ensures Overlay(buf, start, data)[Index(start + k, |buf|)] == data[k]
    {
      OverlayAt(buf, start, data, k);
    }
  }
}
