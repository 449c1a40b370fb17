/** The chunks of one segment and their boundary tags (src/dlmalloc/dlmalloc.c).

    Addresses and sizes are bytes. `mem[a]` is the 8-byte word at address `a`;
    only multiples of 8 are used. A chunk at `a` has its `head` at `a + 8`; the
    `prev_foot` at `a` belongs to the chunk before it. */
module Heap {
  import opened Bits

  const MIN_CHUNK_SIZE: nat := 32

  /** `prev` is the address of the chunk before; the first chunk's is its own. */
  datatype Chunk = Chunk(size: nat, inuse: bool, prev: nat)

  type Chunks = map<nat, Chunk>

  // ----- head words -----

  function Head(size: nat, inuse: bool, pinuse: bool): nat {
    size + (if inuse then 2 else 0) + (if pinuse then 1 else 0)
  }

  /** `chunksize` */
  function ChunkSize(head: nat): nat {
    head - head % 8
  }

  function CInUse(head: nat): bool {
    head % 4 >= 2
  }

  function PInUse(head: nat): bool {
    head % 2 == 1
  }

  function SetPInUse(head: nat): nat {
    if PInUse(head) then head else head + 1
  }

  function ClearPInUse(head: nat): nat {
    if PInUse(head) then head - 1 else head
  }

  lemma Remainders(k: nat, r: nat)
    requires r < 4
    ensures (8 * k + r) % 8 == r && (8 * k + r) % 4 == r && (8 * k + r) % 2 == r % 2
  {
    DivUnique(8 * k + r, k, r, 8);
    DivUnique(8 * k + r, 2 * k, r, 4);
    DivUnique(8 * k + r, 4 * k + r / 2, r % 2, 2);
  }

  /** The size and the two bits of a head come back out of it. */
  lemma HeadParts(size: nat, inuse: bool, pinuse: bool)
    requires size % 8 == 0
    ensures ChunkSize(Head(size, inuse, pinuse)) == size
    ensures CInUse(Head(size, inuse, pinuse)) == inuse && PInUse(Head(size, inuse, pinuse)) == pinuse
    ensures SetPInUse(Head(size, inuse, pinuse)) == Head(size, inuse, true)
    ensures ClearPInUse(Head(size, inuse, pinuse)) == Head(size, inuse, false)
  {
    Remainders(size / 8, (if inuse then 2 else 0) + (if pinuse then 1 else 0));
  }

  // ----- tiling -----

  /** One chunk, its neighbours and the limits of the segment. */
  predicate Linked(heap: Chunks, base: nat, top: nat, end: nat, a: nat)
    requires a in heap
  {
    var c := heap[a];
    && base <= a <= top && c.size > 0
    && (if a == base then c.prev == a
        else c.prev in heap && c.prev < a && c.prev != top && c.prev + heap[c.prev].size == a)
    && (if a == top then a + c.size == end && !c.inuse
        else c.size >= MIN_CHUNK_SIZE && a + c.size in heap && heap[a + c.size].prev == a)
  }

  predicate Apart(heap: Chunks, a: nat, b: nat)
    requires a in heap && b in heap
  {
    a < b ==> a + heap[a].size <= b
  }

  /** The chunks tile the segment from `base` to `end`; the last is `top`. */
  ghost predicate Tiled(heap: Chunks, base: nat, top: nat, end: nat) {
    && base in heap && top in heap
    && (forall a {:trigger Linked(heap, base, top, end, a)} :: a in heap ==> Linked(heap, base, top, end, a))
    && (forall a, b {:trigger Apart(heap, a, b)} :: a in heap && b in heap ==> Apart(heap, a, b))
  }

  predicate PrevInUse(heap: Chunks, base: nat, a: nat)
    requires a in heap
  {
    a == base || (heap[a].prev in heap && heap[heap[a].prev].inuse)
  }

  /** Every byte of the segment is in a chunk. */
  lemma {:induction false} EveryByteOwned(heap: Chunks, base: nat, top: nat, end: nat, from: nat, x: nat) returns (a: nat)
    requires Tiled(heap, base, top, end) && from in heap && from <= x < end
    ensures a in heap && a <= x < a + heap[a].size
    decreases end - from
  {
    assert Linked(heap, base, top, end, from);
    if x < from + heap[from].size {
      a := from;
    } else {
      a := EveryByteOwned(heap, base, top, end, from + heap[from].size, x);
    }
  }

  // ----- changes of the tiling -----

  function Mark(heap: Chunks, p: nat, inuse: bool): Chunks
    requires p in heap
  {
    heap[p := heap[p].(inuse := inuse)]
  }

  /** The first `k` bytes of a chunk become a chunk; the rest is free. */
  function Split(heap: Chunks, p: nat, k: nat, top: nat): Chunks
    requires p in heap && k <= heap[p].size && (p != top ==> p + heap[p].size in heap)
  {
    var c := heap[p];
    var h := heap[p := c.(size := k)][p + k := Chunk(c.size - k, false, p)];
    if p == top then h
    else h[p + c.size := heap[p + c.size].(prev := p + k)]
  }

  /** A chunk takes in the one behind it. */
  function Join(heap: Chunks, p: nat, top: nat): Chunks
    requires p in heap && p != top && p + heap[p].size in heap
    requires p + heap[p].size != top ==> p + heap[p].size + heap[p + heap[p].size].size in heap
  {
    var q := p + heap[p].size;
    var h := (heap - {q})[p := heap[p].(size := heap[p].size + heap[q].size)];
    if q == top then h
    else
      var n := q + heap[q].size;
      h[n := heap[n].(prev := p)]
  }

  lemma MarkTiles(heap: Chunks, base: nat, top: nat, end: nat, p: nat, inuse: bool, h: Chunks)
    requires Tiled(heap, base, top, end) && p in heap && p != top
    requires h == Mark(heap, p, inuse)
    ensures Tiled(h, base, top, end)
  {
    forall a | a in h ensures Linked(h, base, top, end, a) {
      assert Linked(heap, base, top, end, a);
    }
    forall a, b | a in h && b in h ensures Apart(h, a, b) {
      assert Apart(heap, a, b);
    }
  }

  lemma SplitLinked(heap: Chunks, base: nat, top: nat, end: nat, p: nat, k: nat, h: Chunks, top': nat, a: nat)
    requires base in heap && top in heap && p in heap && Linked(heap, base, top, end, p) && MIN_CHUNK_SIZE <= k
    requires k + (if p == top then 1 else MIN_CHUNK_SIZE) <= heap[p].size
    requires p != top ==> p + heap[p].size in heap
    requires p + k !in heap
    requires h == Split(heap, p, k, top) && top' == if p == top then p + k else top
    requires a in h && (a in heap ==> Linked(heap, base, top, end, a))
    requires p != top ==> Linked(heap, base, top, end, p + heap[p].size)
    ensures Linked(h, base, top', end, a)
  {
  }

  lemma SplitApart(heap: Chunks, p: nat, k: nat, top: nat, h: Chunks, a: nat, b: nat)
    requires p in heap && k <= heap[p].size && (p != top ==> p + heap[p].size in heap) && p + k !in heap
    requires h == Split(heap, p, k, top) && a in h && b in h
    requires (a in heap ==> Apart(heap, a, p) && Apart(heap, p, a)) && (b in heap ==> Apart(heap, p, b))
    requires a in heap && b in heap ==> Apart(heap, a, b)
    ensures Apart(h, a, b)
  {
  }

  lemma SplitTiles(heap: Chunks, base: nat, top: nat, end: nat, p: nat, k: nat, h: Chunks, top': nat)
    requires Tiled(heap, base, top, end) && p in heap && MIN_CHUNK_SIZE <= k
    requires k + (if p == top then 1 else MIN_CHUNK_SIZE) <= heap[p].size
    requires p != top ==> p + heap[p].size in heap
    requires h == Split(heap, p, k, top) && top' == if p == top then p + k else top
    ensures p + k !in heap && Tiled(h, base, top', end)
  {
    assert Linked(heap, base, top, end, p);
    assert p + k !in heap by { assert p + k in heap ==> Apart(heap, p, p + k); }
    if p != top { assert Linked(heap, base, top, end, p + heap[p].size); }
    forall a {:trigger Linked(h, base, top', end, a)} | a in h ensures Linked(h, base, top', end, a) {
      assert a in heap ==> Linked(heap, base, top, end, a);
      SplitLinked(heap, base, top, end, p, k, h, top', a);
    }
    forall a, b {:trigger Apart(h, a, b)} | a in h && b in h ensures Apart(h, a, b) {
      assert a in heap ==> Apart(heap, a, p) && Apart(heap, p, a);
      assert b in heap ==> Apart(heap, p, b);
      assert a in heap && b in heap ==> Apart(heap, a, b);
      SplitApart(heap, p, k, top, h, a, b);
    }
  }

  lemma JoinLinked(heap: Chunks, base: nat, top: nat, end: nat, p: nat, q: nat, h: Chunks, top': nat, a: nat)
    requires base in heap && top in heap && p in heap && p != top && !heap[p].inuse && q == p + heap[p].size && q in heap
    requires q != top ==> q + heap[q].size in heap
    requires Linked(heap, base, top, end, p) && Linked(heap, base, top, end, q)
    requires q != top ==> Linked(heap, base, top, end, q + heap[q].size)
    requires h == Join(heap, p, top) && top' == if q == top then p else top
    requires a in h && a in heap && Linked(heap, base, top, end, a) && Apart(heap, p, a)
    ensures Linked(h, base, top', end, a)
  {
  }

  lemma JoinApart(heap: Chunks, p: nat, q: nat, top: nat, h: Chunks, a: nat, b: nat)
    requires p in heap && p != top && q == p + heap[p].size && q in heap && (q != top ==> q + heap[q].size in heap)
    requires h == Join(heap, p, top) && a in h && b in h && heap[p].size > 0
    requires Apart(heap, a, b) && Apart(heap, q, b) && Apart(heap, p, b)
    ensures Apart(h, a, b)
  {
  }

  lemma JoinTiles(heap: Chunks, base: nat, top: nat, end: nat, p: nat, q: nat, h: Chunks, top': nat)
    requires Tiled(heap, base, top, end) && p in heap && p != top && !heap[p].inuse
    requires q == p + heap[p].size && q in heap && (q != top ==> q + heap[q].size in heap)
    requires h == Join(heap, p, top) && top' == if q == top then p else top
    ensures Tiled(h, base, top', end)
  {
    assert Linked(heap, base, top, end, p) && Linked(heap, base, top, end, q);
    if q != top { assert Linked(heap, base, top, end, q + heap[q].size); }
    forall a {:trigger Linked(h, base, top', end, a)} | a in h ensures Linked(h, base, top', end, a) {
      assert Linked(heap, base, top, end, a) && Apart(heap, p, a);
      JoinLinked(heap, base, top, end, p, q, h, top', a);
    }
    forall a, b {:trigger Apart(h, a, b)} | a in h && b in h ensures Apart(h, a, b) {
      assert Apart(heap, a, b) && Apart(heap, q, b) && Apart(heap, p, b);
      JoinApart(heap, p, q, top, h, a, b);
    }
  }

  // ----- boundary tags -----

  /** The words of `m` describe one chunk, and no free chunk comes before it if it is free. */
  predicate TagOk(m: seq<nat>, heap: Chunks, base: nat, top: nat, a: nat)
    requires a in heap
  {
    var c := heap[a];
    && a + 8 < |m| && m[a + 8] == Head(c.size, c.inuse, PrevInUse(heap, base, a))
    && (!c.inuse && a != top ==> a + c.size < |m| && m[a + c.size] == c.size)
    && (!c.inuse ==> PrevInUse(heap, base, a))
  }

  ghost predicate TaggedBut(m: seq<nat>, heap: Chunks, base: nat, top: nat, dirty: set<nat>) {
    forall a {:trigger TagOk(m, heap, base, top, a)} :: a in heap && a !in dirty ==> TagOk(m, heap, base, top, a)
  }

  predicate AlignedAt(heap: Chunks, a: nat)
    requires a in heap
  {
    a % 8 == 0 && heap[a].size % 8 == 0
  }

  ghost predicate Aligned(heap: Chunks) {
    forall a {:trigger AlignedAt(heap, a)} :: a in heap ==> AlignedAt(heap, a)
  }

  lemma MarkTags(m: seq<nat>, heap: Chunks, base: nat, top: nat, end: nat, p: nat, inuse: bool, h: Chunks,
                 dirty: set<nat>, dirty': set<nat>)
    requires Tiled(heap, base, top, end) && TaggedBut(m, heap, base, top, dirty) && Aligned(heap)
    requires p in heap && p != top && h == Mark(heap, p, inuse) && dirty' == dirty + {p, p + heap[p].size}
    ensures TaggedBut(m, h, base, top, dirty') && Aligned(h)
  {
    forall a {:trigger TagOk(m, h, base, top, a)} | a in h && a !in dirty' ensures TagOk(m, h, base, top, a) {
      assert Linked(heap, base, top, end, a);
      assert TagOk(m, heap, base, top, a);
    }
    forall a {:trigger AlignedAt(h, a)} | a in h ensures AlignedAt(h, a) { assert AlignedAt(heap, a); }
  }

  lemma SplitTags(m: seq<nat>, heap: Chunks, base: nat, top: nat, end: nat, p: nat, k: nat, h: Chunks, top': nat,
                  dirty: set<nat>, dirty': set<nat>)
    requires Tiled(heap, base, top, end) && TaggedBut(m, heap, base, top, dirty) && Aligned(heap)
    requires p in heap && k <= heap[p].size && k % 8 == 0 && p + k !in heap
    requires p != top ==> p + heap[p].size in heap
    requires h == Split(heap, p, k, top) && top' == if p == top then p + k else top
    requires dirty' == dirty + {p, p + k, p + heap[p].size}
    ensures TaggedBut(m, h, base, top', dirty') && Aligned(h)
  {
    forall a {:trigger TagOk(m, h, base, top', a)} | a in h && a !in dirty' ensures TagOk(m, h, base, top', a) {
      assert Linked(heap, base, top, end, a);
      assert TagOk(m, heap, base, top, a);
    }
    forall a {:trigger AlignedAt(h, a)} | a in h ensures AlignedAt(h, a) {
      assert AlignedAt(heap, p);
      assert a in heap ==> AlignedAt(heap, a);
    }
  }

  lemma JoinTags(m: seq<nat>, heap: Chunks, base: nat, top: nat, end: nat, p: nat, q: nat, h: Chunks, top': nat,
                 dirty: set<nat>, dirty': set<nat>)
    requires Tiled(heap, base, top, end) && TaggedBut(m, heap, base, top, dirty) && Aligned(heap)
    requires p in heap && p != top && q == p + heap[p].size && q in heap && (q != top ==> q + heap[q].size in heap)
    requires h == Join(heap, p, top) && top' == if q == top then p else top
    requires dirty' == dirty + {p, q + heap[q].size}
    ensures TaggedBut(m, h, base, top', dirty') && Aligned(h)
  {
    forall a {:trigger TagOk(m, h, base, top', a)} | a in h && a !in dirty' ensures TagOk(m, h, base, top', a) {
      assert Linked(heap, base, top, end, a) && Linked(heap, base, top, end, q);
      assert TagOk(m, heap, base, top, a);
    }
    forall a {:trigger AlignedAt(h, a)} | a in h ensures AlignedAt(h, a) {
      assert AlignedAt(heap, p) && AlignedAt(heap, q) && AlignedAt(heap, a);
    }
  }

  /** Writing the heads of the dirty chunks, and the feet before them, cleans them. */
  lemma WriteTags(m: seq<nat>, m': seq<nat>, heap: Chunks, base: nat, top: nat, end: nat, dirty: set<nat>, feet: set<nat>)
    requires Tiled(heap, base, top, end) && TaggedBut(m, heap, base, top, dirty) && |m'| == |m|
    requires forall d :: d in dirty ==> d in heap && TagOk(m', heap, base, top, d)
    requires forall f :: f in feet ==> f in heap && f != base && heap[f].prev in dirty
    requires forall x :: 8 <= x < |m| && x - 8 !in dirty && x !in feet ==> m'[x] == m[x]
    ensures TaggedBut(m', heap, base, top, {})
  {
    forall a {:trigger TagOk(m', heap, base, top, a)} | a in heap ensures TagOk(m', heap, base, top, a) {
      if a !in dirty {
        assert TagOk(m, heap, base, top, a) && Linked(heap, base, top, end, a);
        assert a + 8 in feet ==> Apart(heap, a, a + 8) && Linked(heap, base, top, end, a + 8);
        var n := a + heap[a].size;
        assert n >= 8 && n - 8 in dirty ==> Apart(heap, a, n - 8);
      }
    }
  }

  /** The bytes handed out with a chunk run from behind its head to the head of
      the next: the last word is that chunk's `prev_foot`. */
  predicate InPayload(heap: Chunks, q: nat, x: nat)
    requires q in heap
  {
    heap[q].inuse && q + 16 <= x < q + heap[q].size + 8
  }

  ghost predicate KeepsPayloads(m: seq<nat>, m': seq<nat>, heap: Chunks) {
    |m| == |m'| && forall q: nat, x: nat :: q in heap && InPayload(heap, q, x) && x < |m| ==> m'[x] == m[x]
  }

  /** Heads, and feet behind free chunks, are no one's payload. */
  lemma PayloadsKept(m: seq<nat>, m': seq<nat>, heap: Chunks, base: nat, top: nat, end: nat, dirty: set<nat>, feet: set<nat>)
    requires Tiled(heap, base, top, end) && |m'| == |m|
    requires forall d :: d in dirty ==> d in heap
    requires forall f :: f in feet ==> f in heap && f != base && heap[f].prev in heap && !heap[heap[f].prev].inuse
    requires forall x :: 8 <= x < |m| && x - 8 !in dirty && x !in feet ==> m'[x] == m[x]
    ensures KeepsPayloads(m, m', heap)
  {
    forall q: nat, x: nat | q in heap && InPayload(heap, q, x) && x < |m| ensures m'[x] == m[x] {
      assert Linked(heap, base, top, end, q);
      assert x - 8 in dirty ==> Apart(heap, q, x - 8);
      var n := q + heap[q].size;
      assert x in feet ==> Apart(heap, q, x) && Apart(heap, n, x) && Linked(heap, base, top, end, x);
      assert Linked(heap, base, top, end, n);
    }
  }

  /** Payloads of different chunks do not overlap. */
  lemma PayloadsDisjoint(heap: Chunks, base: nat, top: nat, end: nat, p: nat, q: nat, x: nat)
    requires Tiled(heap, base, top, end) && p in heap && q in heap && p != q
    requires InPayload(heap, p, x)
    ensures !InPayload(heap, q, x) && base + 16 <= x < end + 8
  {
    assert Apart(heap, p, q) && Apart(heap, q, p);
    assert Linked(heap, base, top, end, p);
    assert Linked(heap, base, top, end, p + heap[p].size) && Linked(heap, base, top, end, top);
  }

  // ----- the heap invariant -----

  ghost predicate HeapOk(m: seq<nat>, heap: Chunks, base: nat, top: nat, end: nat) {
    && |m| == end + 16
    && Tiled(heap, base, top, end) && Aligned(heap) && TaggedBut(m, heap, base, top, {})
  }

  /** Neighbours of a free chunk are in use. */
  lemma NoFreeNeighbours(m: seq<nat>, heap: Chunks, base: nat, top: nat, end: nat, p: nat)
    requires HeapOk(m, heap, base, top, end) && p in heap && !heap[p].inuse
    ensures PrevInUse(heap, base, p)
    ensures p != top ==> p + heap[p].size in heap && heap[p + heap[p].size].inuse && p + heap[p].size != top
  {
    assert TagOk(m, heap, base, top, p) && Linked(heap, base, top, end, p);
    if p != top {
      assert TagOk(m, heap, base, top, p + heap[p].size) && Linked(heap, base, top, end, p + heap[p].size);
    }
  }

  /** `set_inuse_and_pinuse` on a free chunk. */
  lemma WholeTaken(m: seq<nat>, heap: Chunks, base: nat, top: nat, end: nat, p: nat, n: nat, m': seq<nat>, h: Chunks)
    requires HeapOk(m, heap, base, top, end) && p in heap && p != top && !heap[p].inuse
    requires n == p + heap[p].size && n + 8 < |m|
    requires m' == m[p + 8 := Head(heap[p].size, true, true)][n + 8 := SetPInUse(m[n + 8])]
    requires h == Mark(heap, p, true)
    ensures HeapOk(m', h, base, top, end) && KeepsPayloads(m, m', h)
  {
    NoFreeNeighbours(m, heap, base, top, end, p);
    assert Linked(heap, base, top, end, p);
    MarkTiles(heap, base, top, end, p, true, h);
    MarkTags(m, heap, base, top, end, p, true, h, {}, {p, n});
    assert TagOk(m, heap, base, top, p) && TagOk(m, heap, base, top, n) && AlignedAt(heap, n);
    HeadParts(heap[n].size, heap[n].inuse, false);
    assert TagOk(m', h, base, top, p) && TagOk(m', h, base, top, n);
    WriteTags(m, m', h, base, top, end, {p, n}, {});
    PayloadsKept(m, m', h, base, top, end, {p, n}, {});
  }

  /** The first `k` bytes of a free chunk are taken, the rest is free. */
  lemma PartTaken(m: seq<nat>, heap: Chunks, base: nat, top: nat, end: nat, p: nat, k: nat, m': seq<nat>, h: Chunks)
    requires HeapOk(m, heap, base, top, end) && p in heap && p != top && !heap[p].inuse
    requires MIN_CHUNK_SIZE <= k && k % 8 == 0 && k + MIN_CHUNK_SIZE <= heap[p].size
    requires p + heap[p].size in heap && p + heap[p].size < |m|
    requires m' == m[p + 8 := Head(k, true, true)][p + k + 8 := Head(heap[p].size - k, false, true)]
                    [p + heap[p].size := heap[p].size - k]
    requires h == Mark(Split(heap, p, k, top), p, true)
    ensures p + k !in heap && HeapOk(m', h, base, top, end) && KeepsPayloads(m, m', h)
  {
    var n, r := p + heap[p].size, p + k;
    NoFreeNeighbours(m, heap, base, top, end, p);
    assert Linked(heap, base, top, end, p) && Linked(heap, base, top, end, n);
    var h1 := Split(heap, p, k, top);
    SplitTiles(heap, base, top, end, p, k, h1, top);
    SplitTags(m, heap, base, top, end, p, k, h1, top, {}, {p, r, n});
    MarkTiles(h1, base, top, end, p, true, h);
    MarkTags(m, h1, base, top, end, p, true, h, {p, r, n}, {p, r, n});
    assert TagOk(m, heap, base, top, n);
    assert TagOk(m', h, base, top, p) && TagOk(m', h, base, top, r) && TagOk(m', h, base, top, n);
    WriteTags(m, m', h, base, top, end, {p, r, n}, {n});
    PayloadsKept(m, m', h, base, top, end, {p, r, n}, {n});
  }

  /** The first `k` bytes of top are taken, the rest is the new top. */
  lemma TopTaken(m: seq<nat>, heap: Chunks, base: nat, top: nat, end: nat, k: nat, m': seq<nat>, h: Chunks, top': nat)
    requires HeapOk(m, heap, base, top, end)
    requires MIN_CHUNK_SIZE <= k < heap[top].size && k % 8 == 0 && top' == top + k && top' + 8 < |m|
    requires m' == m[top' + 8 := Head(heap[top].size - k, false, true)][top + 8 := Head(k, true, true)]
    requires h == Mark(Split(heap, top, k, top), top, true)
    ensures top' !in heap && HeapOk(m', h, base, top', end) && KeepsPayloads(m, m', h)
  {
    NoFreeNeighbours(m, heap, base, top, end, top);
    assert Linked(heap, base, top, end, top);
    var h1 := Split(heap, top, k, top);
    SplitTiles(heap, base, top, end, top, k, h1, top');
    assert end !in heap by { assert end in heap ==> Linked(heap, base, top, end, end); }
    SplitTags(m, heap, base, top, end, top, k, h1, top', {}, {top, top', end});
    MarkTiles(h1, base, top', end, top, true, h);
    MarkTags(m, h1, base, top', end, top, true, h, {top, top', end}, {top, top', end});
    assert TagOk(m', h, base, top', top) && TagOk(m', h, base, top', top');
    assert TaggedBut(m, h, base, top', {top, top'}) by {
      forall a {:trigger TagOk(m, h, base, top', a)} | a in h && a !in {top, top'} ensures TagOk(m, h, base, top', a) {
        assert a != end;
      }
    }
    WriteTags(m, m', h, base, top', end, {top, top'}, {});
    PayloadsKept(m, m', h, base, top', end, {top, top'}, {});
  }

  /** A write inside a payload touches no tag. */
  lemma PayloadWritten(m: seq<nat>, heap: Chunks, base: nat, top: nat, end: nat, q: nat, x: nat, value: nat)
    requires HeapOk(m, heap, base, top, end) && q in heap && InPayload(heap, q, x)
    ensures x < |m| && HeapOk(m[x := value], heap, base, top, end)
  {
    var n := q + heap[q].size;
    assert Linked(heap, base, top, end, q) && Linked(heap, base, top, end, n) && Linked(heap, base, top, end, top);
    var m' := m[x := value];
    forall a {:trigger TagOk(m', heap, base, top, a)} | a in heap ensures TagOk(m', heap, base, top, a) {
      assert TagOk(m, heap, base, top, a) && Linked(heap, base, top, end, a);
      assert Apart(heap, a, q) && Apart(heap, q, a);
    }
  }

  // ----- giving a chunk back, step by step -----

  /** `p` is free, and its tag and the one behind it are still to be written. */
  ghost predicate Freeing(m: seq<nat>, heap: Chunks, base: nat, top: nat, end: nat, p: nat, n: nat) {
    && |m| == end + 16
    && Tiled(heap, base, top, end) && Aligned(heap) && TaggedBut(m, heap, base, top, {p, n})
    && p in heap && p != top && !heap[p].inuse && n == p + heap[p].size && n in heap
    && n + 8 < |m| && heap[n].prev == p
    && (m[n + 8] == Head(heap[n].size, heap[n].inuse, true) || m[n + 8] == Head(heap[n].size, heap[n].inuse, false))
  }

  lemma FreeBegins(m: seq<nat>, heap: Chunks, base: nat, top: nat, end: nat, p: nat, h: Chunks)
    requires HeapOk(m, heap, base, top, end) && p in heap && heap[p].inuse && h == Mark(heap, p, false)
    ensures p + heap[p].size in heap && p + heap[p].size + 8 < |m|
    ensures Freeing(m, h, base, top, end, p, p + heap[p].size)
    ensures m[p + heap[p].size + 8] == Head(h[p + heap[p].size].size, h[p + heap[p].size].inuse, true)
  {
    assert Linked(heap, base, top, end, p) && Linked(heap, base, top, end, top);
    var n := p + heap[p].size;
    assert Linked(heap, base, top, end, n);
    MarkTiles(heap, base, top, end, p, false, h);
    MarkTags(m, heap, base, top, end, p, false, h, {}, {p, n});
    assert TagOk(m, heap, base, top, n);
  }

  /** `consolidate backward` */
  lemma JoinBack(m: seq<nat>, heap: Chunks, base: nat, top: nat, end: nat, p: nat, n: nat, h: Chunks)
    requires Freeing(m, heap, base, top, end, p, n) && !PrevInUse(heap, base, p)
    requires var prev := heap[p].prev;
      prev in heap && prev != top && prev + heap[prev].size == p && h == Join(heap, prev, top)
    ensures var prev := heap[p].prev;
      && Freeing(m, h, base, top, end, prev, n) && PrevInUse(h, base, prev)
      && h[n].inuse == heap[n].inuse && h[n].size == heap[n].size
  {
    var prev := heap[p].prev;
    assert Linked(heap, base, top, end, prev) && Linked(heap, base, top, end, p) && Linked(heap, base, top, end, n);
    assert TagOk(m, heap, base, top, prev);
    JoinTiles(heap, base, top, end, prev, p, h, top);
    JoinTags(m, heap, base, top, end, prev, p, h, top, {p, n}, {p, n, prev});
    assert p !in h;
    assert TaggedBut(m, h, base, top, {prev, n}) by {
      forall a {:trigger TagOk(m, h, base, top, a)} | a in h && a !in {prev, n} ensures TagOk(m, h, base, top, a) {
        assert a != p;
      }
    }
  }

  /** `consolidate forward`, with a chunk that is not top. */
  lemma JoinForward(m: seq<nat>, heap: Chunks, base: nat, top: nat, end: nat, p: nat, n: nat, n': nat, h: Chunks)
    requires Freeing(m, heap, base, top, end, p, n) && !heap[n].inuse && n != top && PrevInUse(heap, base, p)
    requires n' == n + heap[n].size && n' in heap && h == Join(heap, p, top)
    ensures Freeing(m, h, base, top, end, p, n') && PrevInUse(h, base, p) && h[n'].inuse
    ensures m[n' + 8] == Head(h[n'].size, true, false)
  {
    assert Linked(heap, base, top, end, n) && Linked(heap, base, top, end, n') && Linked(heap, base, top, end, p);
    assert TagOk(m, heap, base, top, n');
    JoinTiles(heap, base, top, end, p, n, h, top);
    JoinTags(m, heap, base, top, end, p, n, h, top, {p, n}, {p, n, n'});
    assert n !in h;
    assert TaggedBut(m, h, base, top, {p, n'}) by {
      forall a {:trigger TagOk(m, h, base, top, a)} | a in h && a !in {p, n'} ensures TagOk(m, h, base, top, a) {
        assert a != n;
      }
    }
  }

  /** The freed chunk gets its tags: head, foot, and the cleared bit behind it. */
  lemma FreeEnds(m: seq<nat>, heap: Chunks, base: nat, top: nat, end: nat, p: nat, n: nat, m': seq<nat>)
    requires Freeing(m, heap, base, top, end, p, n) && PrevInUse(heap, base, p) && heap[n].inuse
    requires m' == m[p + 8 := Head(heap[p].size, false, true)][n := heap[p].size]
                    [n + 8 := Head(heap[n].size, true, false)]
    ensures HeapOk(m', heap, base, top, end) && KeepsPayloads(m, m', heap)
  {
    assert Linked(heap, base, top, end, p) && Linked(heap, base, top, end, n);
    assert TagOk(m', heap, base, top, p) && TagOk(m', heap, base, top, n);
    WriteTags(m, m', heap, base, top, end, {p, n}, {n});
    PayloadsKept(m, m', heap, base, top, end, {p, n}, {n});
  }

  /** Top takes the freed chunk in and starts with it. */
  lemma FreeIntoTop(m: seq<nat>, heap: Chunks, base: nat, top: nat, end: nat, p: nat, h: Chunks, m': seq<nat>)
    requires Freeing(m, heap, base, top, end, p, top) && PrevInUse(heap, base, p)
    requires h == Join(heap, p, top) && m' == m[p + 8 := Head(h[p].size, false, true)]
    ensures HeapOk(m', h, base, p, end) && KeepsPayloads(m, m', h)
  {
    assert Linked(heap, base, top, end, p) && Linked(heap, base, top, end, top);
    JoinTiles(heap, base, top, end, p, top, h, p);
    assert end !in h by { assert end in heap ==> Linked(heap, base, top, end, end); }
    JoinTags(m, heap, base, top, end, p, top, h, p, {p, top}, {p, top, end});
    assert TaggedBut(m, h, base, p, {p}) by {
      forall a {:trigger TagOk(m, h, base, p, a)} | a in h && a !in {p} ensures TagOk(m, h, base, p, a) {
        assert a != top && a != end;
      }
    }
    assert TagOk(m', h, base, p, p);
    WriteTags(m, m', h, base, p, end, {p}, {});
    PayloadsKept(m, m', h, base, p, end, {p}, {});
  }

  // ----- the chunks in use -----

  /** The chunks handed out, with their sizes. */
  ghost function Live(heap: Chunks): map<nat, nat> {
    map a | a in heap && heap[a].inuse :: heap[a].size
  }

  lemma LiveMark(heap: Chunks, p: nat, inuse: bool)
    requires p in heap
    ensures Live(Mark(heap, p, inuse)) == if inuse then Live(heap)[p := heap[p].size] else Live(heap) - {p}
  {
  }

  lemma LiveSplit(heap: Chunks, p: nat, k: nat, top: nat)
    requires p in heap && 0 < k <= heap[p].size && (p != top ==> p + heap[p].size in heap)
    requires !heap[p].inuse && p + k !in heap
    ensures Live(Split(heap, p, k, top)) == Live(heap)
  {
    var h, n := Split(heap, p, k, top), p + heap[p].size;
    assert forall a :: a in Live(h) <==> a in Live(heap);
    assert forall a :: a in Live(h) ==> Live(h)[a] == Live(heap)[a];
  }

  lemma LiveJoin(heap: Chunks, p: nat, q: nat, top: nat)
    requires p in heap && p != top && !heap[p].inuse && q == p + heap[p].size && q in heap && !heap[q].inuse
    requires q != top ==> q + heap[q].size in heap
    requires heap[p].size > 0 && heap[q].size > 0
    ensures Live(Join(heap, p, top)) == Live(heap)
  {
    var h := Join(heap, p, top);
    assert forall a :: a in Live(h) <==> a in Live(heap);
    assert forall a :: a in Live(h) ==> Live(h)[a] == Live(heap)[a];
  }
}
