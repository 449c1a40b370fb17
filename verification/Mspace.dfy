/** An mspace over one segment supplied by the caller (src/dlmalloc/dlmalloc.c,
    with `ONLY_MSPACES` and neither mmap nor morecore, so `sys_alloc` fails). */
module Mspace {
  import opened Bits
  import opened Trie
  import opened TreeBins
  import opened BestFit
  import opened Bins
  import opened Heap

  const MIN_REQUEST: nat := 23
  const MAX_SMALL_REQUEST: nat := 240
  const MAX_REQUEST: nat := WORD - 128

  /** `pad_request`, at 8-byte alignment and 8 bytes of overhead. */
  function PadRequest(bytes: nat): nat {
    (bytes + 15) / 8 * 8
  }

  /** The chunk size a request asks for; too large a request asks for more than there is. */
  function ChunkFor(bytes: nat): (nb: nat)
    ensures nb >= MIN_CHUNK_SIZE
  {
    if bytes < MIN_REQUEST then MIN_CHUNK_SIZE
    else if bytes >= MAX_REQUEST then WORD - 1
    else PadRequest(bytes)
  }

  lemma PadMeans(bytes: nat)
    ensures PadRequest(bytes) % 8 == 0 && bytes + 8 <= PadRequest(bytes) < bytes + 16
  {
    var q, r := (bytes + 15) / 8, (bytes + 15) % 8;
    assert bytes + 15 == 8 * q + r;
    Remainders(q, 0);
  }

  /** `nb` is the least multiple of 8 with room for a head and `bytes` that can be a chunk. */
  predicate Asks(bytes: nat, nb: nat) {
    nb % 8 == 0 && 32 <= nb && bytes + 8 <= nb && (nb == 32 || nb < bytes + 16)
  }

  lemma AsksOnce(bytes: nat, nb: nat, nb': nat)
    requires Asks(bytes, nb) && Asks(bytes, nb')
    ensures nb == nb'
  {
  }

  lemma ChunkForMeans(bytes: nat)
    requires bytes < 0xFFFF_FFFF_FFFF_FF80
    ensures Asks(bytes, ChunkFor(bytes))
  {
    PadMeans(bytes);
  }

  // ----- bins against chunks -----

  /** The bins hold exactly the free chunks, but for those in `skip`, each under its size. */
  ghost predicate Match(bins: Bins, heap: Chunks, skip: set<nat>)
    requires Shaped(bins)
  {
    forall s: nat, a: nat {:trigger a in Bin(bins, s)} ::
      a in Bin(bins, s) <==> a in heap && a !in skip && !heap[a].inuse && heap[a].size == s
  }

  lemma MatchMark(bins: Bins, heap: Chunks, skip: set<nat>, p: nat, inuse: bool)
    requires Shaped(bins) && Match(bins, heap, skip) && p in heap && p in skip
    ensures Match(bins, Mark(heap, p, inuse), skip)
    ensures inuse ==> Match(bins, Mark(heap, p, inuse), skip - {p})
  {
  }

  lemma MatchSplit(bins: Bins, heap: Chunks, skip: set<nat>, p: nat, k: nat, top: nat, h: Chunks)
    requires Shaped(bins) && Match(bins, heap, skip) && p in heap && p in skip
    requires k <= heap[p].size && (p != top ==> p + heap[p].size in heap) && h == Split(heap, p, k, top)
    requires p + k !in heap
    ensures Match(bins, h, skip + {p + k})
  {
  }

  lemma MatchJoin(bins: Bins, heap: Chunks, skip: set<nat>, p: nat, q: nat, top: nat, h: Chunks)
    requires Shaped(bins) && Match(bins, heap, skip) && p in heap && p != top && p in skip && q in skip
    requires q == p + heap[p].size && q in heap && (q != top ==> q + heap[q].size in heap) && h == Join(heap, p, top)
    requires heap[p].size > 0 && heap[q].size > 0
    ensures Match(bins, h, skip) && Match(bins, h, skip - {q})
  {
  }

  /** A binned chunk is unlinked and joined to the one before it. */
  lemma MatchTakeIn(bins: Bins, heap: Chunks, skip: set<nat>, p: nat, q: nat, top: nat, bins': Bins, h: Chunks)
    requires Ok(bins) && Match(bins, heap, skip) && p in heap && p != top && p in skip && q !in skip
    requires q == p + heap[p].size && q in heap && q != top && q + heap[q].size in heap && h == Join(heap, p, top)
    requires heap[p].size > 0 && heap[q].size > 0 && !heap[q].inuse && bins' == UnlinkChunk(bins, q, heap[q].size)
    ensures Ok(bins') && Match(bins', h, skip)
  {
    MatchUnlink(bins, heap, skip, q, bins');
    MatchJoin(bins', heap, skip + {q}, p, q, top, h);
    assert skip + {q} - {q} == skip;
  }

  lemma MatchUnlink(bins: Bins, heap: Chunks, skip: set<nat>, p: nat, bins': Bins)
    requires Ok(bins) && Match(bins, heap, skip)
    requires p in heap && !heap[p].inuse && p !in skip && bins' == UnlinkChunk(bins, p, heap[p].size)
    ensures Ok(bins') && Match(bins', heap, skip + {p})
  {
    assert p in Bin(bins, heap[p].size);
    UnlinkRemoves(bins, p, heap[p].size);
  }

  lemma MatchInsert(bins: Bins, heap: Chunks, skip: set<nat>, p: nat, bins': Bins)
    requires Ok(bins) && Match(bins, heap, skip)
    requires p in heap && !heap[p].inuse && p in skip && AlignedAt(heap, p) && heap[p].size < SIZE_LIMIT
    requires bins' == InsertChunk(bins, p, heap[p].size)
    ensures Ok(bins') && Match(bins', heap, skip - {p})
  {
    assert p !in Bin(bins, heap[p].size);
    InsertAdds(bins, p, heap[p].size);
  }

  // ----- the state -----

  predicate DvOk(heap: Chunks, dv: nat, dvsize: nat, top: nat) {
    if dvsize == 0 then dv == 0
    else dv in heap && dv != top && !heap[dv].inuse && heap[dv].size == dvsize
  }

  /** What `do_check_malloc_state` checks, and what it leaves out: tags, tiling,
      no adjacent free chunks, and every free chunk in its bin, the designated
      victim, or top. */
  ghost predicate StateOk(m: seq<nat>, heap: Chunks, base: nat, end: nat, dv: nat, dvsize: nat,
                          top: nat, topsize: nat, bins: Bins) {
    && 0 < base && end - base < SIZE_LIMIT
    && HeapOk(m, heap, base, top, end) && heap[top].size == topsize
    && DvOk(heap, dv, dvsize, top)
    && Ok(bins) && Match(bins, heap, {dv, top})
  }

  /** The chunk at `p` is free, but not yet tagged as such nor binned; `n` is the chunk behind it. */
  ghost predicate FreeOk(m: seq<nat>, heap: Chunks, base: nat, end: nat, dv: nat, dvsize: nat,
                         top: nat, topsize: nat, bins: Bins, p: nat, n: nat) {
    && 0 < base && end - base < SIZE_LIMIT
    && Freeing(m, heap, base, top, end, p, n) && heap[top].size == topsize
    && Ok(bins) && Match(bins, heap, {dv, top, p})
    && (dv == p || DvOk(heap, dv, dvsize, top))
  }

  /** A binned chunk is unlinked and joined to the freed one before it. */
  lemma TakenIn(m: seq<nat>, heap: Chunks, base: nat, end: nat, dv: nat, dvsize: nat, top: nat, topsize: nat,
                bins: Bins, p: nat, n: nat, bins': Bins, h: Chunks)
    requires FreeOk(m, heap, base, end, dv, dvsize, top, topsize, bins, p, n) && PrevInUse(heap, base, p)
    requires !heap[n].inuse && n != top && n != dv && n + heap[n].size in heap
    requires bins' == UnlinkChunk(bins, n, heap[n].size) && h == Join(heap, p, top)
    ensures var n' := n + heap[n].size;
      && FreeOk(m, h, base, end, dv, dvsize, top, topsize, bins', p, n') && PrevInUse(h, base, p)
      && h[n'].inuse && m[n' + 8] == Head(h[n'].size, true, false)
    ensures n !in h && h[p].size == heap[p].size + heap[n].size && Live(h) == Live(heap)
  {
    assert Linked(heap, base, top, end, p) && Linked(heap, base, top, end, n);
    LiveJoin(heap, p, n, top);
    JoinForward(m, heap, base, top, end, p, n, n + heap[n].size, h);
    MatchTakeIn(bins, heap, {dv, top, p}, p, n, top, bins', h);
  }

  /** What an allocation may change: `p`, a free chunk, is now in use with at
      least the size asked for and less than a chunk to spare; no other chunk
      in use has come, gone or changed size. */
  ghost predicate Took(heap: Chunks, heap': Chunks, p: nat, nb: nat) {
    && p in heap && !heap[p].inuse
    && p in heap' && nb <= heap'[p].size < nb + MIN_CHUNK_SIZE
    && Live(heap') == Live(heap)[p := heap'[p].size]
  }

  /** `p` is a free chunk in a bin, and no binned chunk that fits is smaller. */
  ghost predicate BestBinned(heap: Chunks, dv: nat, top: nat, p: nat, nb: nat) {
    && p in heap && !heap[p].inuse && p != dv && p != top && heap[p].size >= nb
    && forall a :: a in heap && !heap[a].inuse && a != dv && a != top ==>
         heap[a].size < nb || heap[p].size <= heap[a].size
  }

  ghost predicate NoBinned(heap: Chunks, dv: nat, top: nat, lo: nat, hi: nat) {
    forall a :: a in heap && !heap[a].inuse && a != dv && a != top ==> !(lo <= heap[a].size < hi)
  }

  lemma BinnedEmpty(bins: Bins, heap: Chunks, dv: nat, top: nat, lo: nat, hi: nat)
    requires Shaped(bins) && Match(bins, heap, {dv, top})
    requires forall s: nat :: lo <= s < hi ==> Bin(bins, s) == []
    ensures NoBinned(heap, dv, top, lo, hi)
  {
    forall a | a in heap && !heap[a].inuse && a != dv && a != top ensures !(lo <= heap[a].size < hi) {
      assert a in Bin(bins, heap[a].size);
    }
  }

  /** The first chunk of the lowest size that fits is the best fit. */
  lemma Chosen(m: seq<nat>, heap: Chunks, base: nat, end: nat, dv: nat, dvsize: nat, top: nat, topsize: nat, bins: Bins,
               nb: nat, p: nat, size: nat)
    requires StateOk(m, heap, base, end, dv, dvsize, top, topsize, bins)
    requires p in Bin(bins, size) && size >= nb && forall s: nat :: nb <= s < size ==> Bin(bins, s) == []
    ensures p != 0 && BestBinned(heap, dv, top, p, nb) && heap[p].size == size
  {
    assert Linked(heap, base, top, end, p);
    BinnedEmpty(bins, heap, dv, top, nb, size);
  }

  /** Every chunk is smaller than the segment. */
  lemma ChunkBelow(heap: Chunks, base: nat, top: nat, end: nat, a: nat)
    requires Tiled(heap, base, top, end) && a in heap
    ensures a > 0 || base == 0
    ensures heap[a].size <= end - base
  {
    assert Linked(heap, base, top, end, a) && Linked(heap, base, top, end, top);
    if a != top { assert Linked(heap, base, top, end, a + heap[a].size); }
  }

  ghost predicate NothingFits(heap: Chunks, top: nat, nb: nat)
    requires top in heap
  {
    && heap[top].size <= nb
    && forall a :: a in heap && !heap[a].inuse && a != top ==> heap[a].size < nb
  }

  /** If the bins have no fit, and the designated victim is none, only top may be. */
  lemma NothingElse(m: seq<nat>, heap: Chunks, base: nat, end: nat, dv: nat, dvsize: nat, top: nat, topsize: nat,
                    bins: Bins, nb: nat)
    requires StateOk(m, heap, base, end, dv, dvsize, top, topsize, bins)
    requires nb > dvsize && (nb >= SIZE_LIMIT || NoBinned(heap, dv, top, nb, WORD))
    ensures forall a :: a in heap && !heap[a].inuse && a != top ==> heap[a].size < nb
    ensures nb >= SIZE_LIMIT ==> topsize < nb
  {
    ChunkBelow(heap, base, top, end, top);
    forall a | a in heap && !heap[a].inuse && a != top ensures heap[a].size < nb {
      ChunkBelow(heap, base, top, end, a);
    }
  }

  lemma NoTrees(bins: Bins, heap: Chunks, dv: nat, top: nat, nb: nat)
    requires Ok(bins) && Match(bins, heap, {dv, top}) && bins.treemap == {} && nb >= 256
    ensures NoBinned(heap, dv, top, nb, WORD)
  {
    TreesEmpty(bins, nb, WORD);
    BinnedEmpty(bins, heap, dv, top, nb, WORD);
  }

  /** No chunk is at address 0, which stands for no designated victim. */
  lemma MatchNoDv(bins: Bins, heap: Chunks, base: nat, top: nat, end: nat)
    requires Shaped(bins) && Tiled(heap, base, top, end) && base > 0 && Match(bins, heap, {top})
    ensures Match(bins, heap, {0, top})
  {
    assert 0 in heap ==> Linked(heap, base, top, end, 0);
  }

  /** Which chunk a request is taken from: the best of the bins unless the
      designated victim is closer (for a small request, unless it fits and no bin
      of that size or the next has a chunk); top only when nothing else fits. */
  ghost predicate Fit(heap: Chunks, dv: nat, top: nat, p: nat, nb: nat, small: bool)
    requires top in heap && p in heap && (dv in heap || dv == 0)
  {
    var dvsize := if dv == 0 then 0 else heap[dv].size;
    if p == top then
      forall a :: a in heap && !heap[a].inuse && a != top ==> heap[a].size < nb
    else if p == dv then
      NoBinned(heap, dv, top, nb, if !small then dvsize else if nb < 240 then nb + 16 else 256)
    else
      && BestBinned(heap, dv, top, p, nb)
      && (dvsize < nb || if small then heap[p].size <= nb + 8 else heap[p].size < dvsize)
  }

  /** A chunk has no room for `bytes` and a head; of top, something has to stay. */
  predicate TooSmall(heap: Chunks, top: nat, a: nat, bytes: nat)
    requires a in heap
  {
    if a == top then heap[a].size < 40 || heap[a].size < bytes + 16 else heap[a].size < bytes + 8
  }

  ghost predicate NoRoom(heap: Chunks, top: nat, bytes: nat) {
    forall a :: a in heap && !heap[a].inuse ==> TooSmall(heap, top, a, bytes)
  }

  /** All of the `bytes` bytes from `start` are payload of the chunk at `p`. */
  ghost predicate OwnsBytes(heap: Chunks, p: nat, start: nat, bytes: nat)
    requires p in heap
  {
    forall x: nat :: start <= x < start + bytes ==> InPayload(heap, p, x)
  }

  /** What a request of `bytes` gets at `p`: the best chunk for it, and no more of it than a chunk too much. */
  ghost predicate Served(heap: Chunks, dv: nat, top: nat, heap': Chunks, p: nat, bytes: nat)
    requires top in heap && p in heap && (dv in heap || dv == 0)
  {
    forall nb {:trigger Asks(bytes, nb)} :: Asks(bytes, nb) ==>
      Took(heap, heap', p, nb) && Fit(heap, dv, top, p, nb, bytes <= 240)
  }

  lemma TooSmallMeans(heap: Chunks, base: nat, top: nat, end: nat, a: nat, bytes: nat)
    requires Tiled(heap, base, top, end) && Aligned(heap) && end - base < SIZE_LIMIT && a in heap && !heap[a].inuse
    ensures TooSmall(heap, top, a, bytes) <==>
      if a == top then heap[a].size <= ChunkFor(bytes) else heap[a].size < ChunkFor(bytes)
  {
    if bytes < MAX_REQUEST { ChunkForMeans(bytes); }
    assert Linked(heap, base, top, end, a) && AlignedAt(heap, a);
    ChunkBelow(heap, base, top, end, a);
  }

  lemma NothingFitsMeans(heap: Chunks, base: nat, top: nat, end: nat, bytes: nat)
    requires Tiled(heap, base, top, end) && Aligned(heap) && end - base < SIZE_LIMIT
    ensures NothingFits(heap, top, ChunkFor(bytes)) <==> NoRoom(heap, top, bytes)
    ensures bytes >= MAX_REQUEST ==> NoRoom(heap, top, bytes)
  {
    assert Linked(heap, base, top, end, top);
    forall a | a in heap && !heap[a].inuse
      ensures TooSmall(heap, top, a, bytes) <==>
        if a == top then heap[a].size <= ChunkFor(bytes) else heap[a].size < ChunkFor(bytes)
    {
      TooSmallMeans(heap, base, top, end, a, bytes);
    }
    forall a | a in heap && !heap[a].inuse && bytes >= MAX_REQUEST ensures TooSmall(heap, top, a, bytes) {
      ChunkBelow(heap, base, top, end, a);
    }
  }

  lemma ServedMeans(heap: Chunks, dv: nat, top: nat, heap': Chunks, p: nat, bytes: nat)
    requires top in heap && p in heap && (dv in heap || dv == 0) && bytes < MAX_REQUEST
    requires Took(heap, heap', p, ChunkFor(bytes)) && Fit(heap, dv, top, p, ChunkFor(bytes), bytes <= 240)
    ensures Served(heap, dv, top, heap', p, bytes)
    ensures p in heap' && heap'[p].size < 32 + (if bytes < 24 then 32 else bytes + 16)
    ensures OwnsBytes(heap', p, p + 16, bytes)
  {
    ChunkForMeans(bytes);
    forall nb | Asks(bytes, nb) ensures nb == ChunkFor(bytes) { AsksOnce(bytes, nb, ChunkFor(bytes)); }
    assert p in Live(heap');
  }

  /** The small bins of `lo` bytes and up to, but not including, bin `i` are empty. */
  lemma SmallEmpty(bins: Bins, lo: nat, i: nat)
    requires Ok(bins) && i <= NSMALLBINS
    requires forall j :: lo / 8 <= j < i ==> j !in bins.smallmap
    ensures forall s: nat :: lo <= s < 8 * i ==> Bin(bins, s) == []
  {
    forall s: nat | lo <= s < 8 * i ensures Bin(bins, s) == [] {
      assert lo / 8 <= s / 8 < i;
      assert IsSmall(s);
    }
  }

  /** A size without chunks in the trees has none in a bin. */
  lemma TreesEmpty(bins: Bins, lo: nat, hi: nat)
    requires Ok(bins) && forall s <- AllSizes(bins.tree) :: !(lo <= s < hi)
    ensures forall s: nat :: 256 <= s && lo <= s < hi ==> Bin(bins, s) == []
  {
    forall s: nat | 256 <= s && lo <= s < hi ensures Bin(bins, s) == [] {
      AllSizesBinned(bins.tree, bins.treemap, s);
    }
  }

  /** Everything of `StateOk` but for the chunks in `skip`, which are in no bin. */
  ghost predicate StateBut(m: seq<nat>, heap: Chunks, base: nat, end: nat, dv: nat, dvsize: nat,
                           top: nat, topsize: nat, bins: Bins, skip: set<nat>) {
    && 0 < base && end - base < SIZE_LIMIT
    && HeapOk(m, heap, base, top, end) && heap[top].size == topsize
    && DvOk(heap, dv, dvsize, top)
    && Ok(bins) && Match(bins, heap, skip)
  }

  /** The state once all of a binned chunk is taken. */
  lemma TookWhole(m: seq<nat>, heap: Chunks, base: nat, top: nat, end: nat, p: nat, nb: nat, h: Chunks)
    requires HeapOk(m, heap, base, top, end) && p in heap && p != top && !heap[p].inuse
    requires nb <= heap[p].size < nb + MIN_CHUNK_SIZE && h == Mark(heap, p, true)
    ensures Took(heap, h, p, nb)
  {
    LiveMark(heap, p, true);
  }

  lemma TookPart(heap: Chunks, base: nat, top: nat, end: nat, p: nat, nb: nat, h: Chunks)
    requires Tiled(heap, base, top, end) && p in heap && !heap[p].inuse && 0 < nb <= heap[p].size
    requires (p != top ==> p + heap[p].size in heap) && p + nb !in heap
    requires h == Mark(Split(heap, p, nb, top), p, true)
    ensures Took(heap, h, p, nb)
  {
    LiveSplit(heap, p, nb, top);
    LiveMark(Split(heap, p, nb, top), p, true);
  }

  /** The rest of a split chunk is free and in no bin. */
  lemma MatchRest(bins: Bins, heap: Chunks, dv: nat, top: nat, p: nat, nb: nat, h: Chunks)
    requires Shaped(bins) && Match(bins, heap, {dv, top} + {p}) && p in heap && 0 < nb <= heap[p].size
    requires (p != top ==> p + heap[p].size in heap) && p + nb !in heap
    requires h == Mark(Split(heap, p, nb, top), p, true)
    ensures Match(bins, h, {dv, top, p + nb} - {p})
  {
    var h1 := Split(heap, p, nb, top);
    MatchSplit(bins, heap, {dv, top} + {p}, p, nb, top, h1);
    MatchMark(bins, h1, {dv, top} + {p} + {p + nb}, p, true);
    assert {dv, top} + {p} + {p + nb} - {p} == {dv, top, p + nb} - {p};
  }

  class Mspace {
    /** The words of the segment and of the footer behind top. */
    const mem: array<nat>
    const base: nat
    const end: nat
    var dv: nat
    var dvsize: nat
    var top: nat
    var topsize: nat
    var bins: Bins
    ghost var heap: Chunks

    ghost predicate Valid()
      reads this, mem
    {
      StateOk(mem[..], heap, base, end, dv, dvsize, top, topsize, bins)
    }

    /** `init_user_mstate`: all of the segment behind the state record is top. */
    constructor (base: nat, end: nat)
      requires 0 < base < end && end - base < SIZE_LIMIT && base % 8 == 0 && end % 8 == 0
      ensures Valid() && fresh(mem) && this.base == base && this.end == end
      ensures heap == map[base := Chunk(end - base, false, base)] && top == base
    {
      this.base, this.end := base, end;
      mem := new nat[end + 16];
      dv, dvsize := 0, 0;
      top, topsize := base, end - base;
      bins := NoBins();
      heap := map[base := Chunk(end - base, false, base)];
      new;
      mem[base + 8] := Head(end - base, false, true);
      NoBinsOk();
      assert TagOk(mem[..], heap, base, top, base);
      assert Linked(heap, base, top, end, base) && AlignedAt(heap, base) && Apart(heap, base, base);
    }
  
    /** `set_inuse_and_pinuse` */
    method TakeWhole(p: nat, size: nat)
      requires HeapOk(mem[..], heap, base, top, end)
      requires p in heap && p != top && !heap[p].inuse && heap[p].size == size
      modifies mem, `heap
      ensures heap == Mark(old(heap), p, true)
      ensures HeapOk(mem[..], heap, base, top, end) && KeepsPayloads(old(mem[..]), mem[..], heap)
    {
      assert Linked(heap, base, top, end, p) && Linked(heap, base, top, end, p + size);
      assert Linked(heap, base, top, end, top);
      mem[p + 8] := Head(size, true, true);
      mem[p + size + 8] := SetPInUse(mem[p + size + 8]);
      heap := Mark(heap, p, true);
      WholeTaken(old(mem[..]), old(heap), base, top, end, p, p + size, mem[..], heap);
    }

    /** `set_size_and_pinuse_of_inuse_chunk`, then `set_size_and_pinuse_of_free_chunk` on the rest. */
    method TakePart(p: nat, size: nat, nb: nat)
      requires HeapOk(mem[..], heap, base, top, end)
      requires p in heap && p != top && !heap[p].inuse && heap[p].size == size
      requires MIN_CHUNK_SIZE <= nb && nb % 8 == 0 && nb + MIN_CHUNK_SIZE <= size
      modifies mem, `heap
      ensures p + size in old(heap) && p + nb !in old(heap)
      ensures heap == Mark(Split(old(heap), p, nb, top), p, true)
      ensures HeapOk(mem[..], heap, base, top, end) && KeepsPayloads(old(mem[..]), mem[..], heap)
    {
      assert Linked(heap, base, top, end, p) && Linked(heap, base, top, end, p + size);
      assert Linked(heap, base, top, end, top);
      mem[p + 8] := Head(nb, true, true);
      mem[p + nb + 8] := Head(size - nb, false, true);
      mem[p + size] := size - nb;
      heap := Mark(Split(heap, p, nb, top), p, true);
      PartTaken(old(mem[..]), old(heap), base, top, end, p, nb, mem[..], heap);
    }
  
    /** `replace_dv`, for a designated victim known to be small. */
    method ReplaceDv(r: nat, rsize: nat)
      requires StateBut(mem[..], heap, base, end, dv, dvsize, top, topsize, bins, {dv, top, r})
      requires IsSmall(dvsize) && rsize > 0
      requires r in heap && r != top && r != dv && !heap[r].inuse && heap[r].size == rsize
      modifies `bins, `dv, `dvsize
      ensures Valid() && dv == r && dvsize == rsize
    {
      if dvsize != 0 {
        assert AlignedAt(heap, dv);
        bins := InsertSmall(bins, dv, dvsize);
        MatchInsert(old(bins), heap, {dv, top, r}, dv, bins);
      }
      assert dvsize == 0 ==> dv !in heap by { assert 0 in heap ==> Linked(heap, base, top, end, 0); }
      dvsize := rsize;
      dv := r;
    }

    /** `insert_chunk` on the rest. */
    method BinRest(r: nat, rsize: nat)
      requires StateBut(mem[..], heap, base, end, dv, dvsize, top, topsize, bins, {dv, top, r})
      requires r in heap && r != top && r != dv && !heap[r].inuse && heap[r].size == rsize
      modifies `bins
      ensures Valid() && r in Bin(bins, rsize)
    {
      assert AlignedAt(heap, r) && Linked(heap, base, top, end, r);
      assert Linked(heap, base, top, end, r + rsize) && Linked(heap, base, top, end, top);
      bins := InsertChunk(bins, r, rsize);
      MatchInsert(old(bins), heap, {dv, top, r}, r, bins);
      assert {dv, top, r} - {r} == {dv, top};
    }

    /** Where the rest of a chunk of `size` bytes at `p` is, once `nb` of them are taken. */
    ghost predicate RestPlaced(dv0: nat, dvsize0: nat, p: nat, size: nat, nb: nat, toDv: bool)
      requires Shaped(bins) && nb <= size
      reads this
    {
      var r, rsize := p + nb, size - nb;
      if rsize < MIN_CHUNK_SIZE then p in heap && heap[p].size == size && dv == dv0 && dvsize == dvsize0
      else
        && p in heap && heap[p].size == nb && r in heap && !heap[r].inuse && heap[r].size == rsize
        && (if toDv then dv == r && dvsize == rsize else r in Bin(bins, rsize) && dv == dv0 && dvsize == dvsize0)
    }

    /** Takes a request out of a binned chunk that is large enough: all of it
        if the rest would be too small for a chunk. The rest goes to a bin, or
        becomes the designated victim and the old one goes to a bin. */
    method TakeBinned(p: nat, size: nat, nb: nat, toDv: bool)
      requires Valid() && p in heap && p != top && p != dv && !heap[p].inuse && heap[p].size == size
      requires MIN_CHUNK_SIZE <= nb <= size && nb % 8 == 0
      requires toDv ==> IsSmall(dvsize)
      modifies this, mem
      ensures Valid() && Took(old(heap), heap, p, nb)
      ensures KeepsPayloads(old(mem[..]), mem[..], heap) && RestPlaced(old(dv), old(dvsize), p, size, nb, toDv)
      ensures top == old(top) && topsize == old(topsize)
    {
      bins := UnlinkChunk(bins, p, size);
      MatchUnlink(old(bins), heap, {dv, top}, p, bins);
      if size - nb < MIN_CHUNK_SIZE {
        TakeWhole(p, size);
        MatchMark(bins, old(heap), {dv, top} + {p}, p, true);
        assert {dv, top} + {p} - {p} == {dv, top};
        TookWhole(old(mem[..]), old(heap), base, top, end, p, nb, heap);
      } else {
        SplitUnlinked(p, size, nb, toDv);
      }
    }

    method SplitUnlinked(p: nat, size: nat, nb: nat, toDv: bool)
      requires StateBut(mem[..], heap, base, end, dv, dvsize, top, topsize, bins, {dv, top} + {p})
      requires p in heap && p != top && p != dv && !heap[p].inuse && heap[p].size == size
      requires MIN_CHUNK_SIZE <= nb && nb + MIN_CHUNK_SIZE <= size && nb % 8 == 0
      requires toDv ==> IsSmall(dvsize)
      modifies this, mem
      ensures Valid() && Took(old(heap), heap, p, nb)
      ensures KeepsPayloads(old(mem[..]), mem[..], heap) && RestPlaced(old(dv), old(dvsize), p, size, nb, toDv)
      ensures top == old(top) && topsize == old(topsize)
    {
      TakePart(p, size, nb);
      MatchRest(bins, old(heap), dv, top, p, nb, heap);
      TookPart(old(heap), base, top, end, p, nb, heap);
      assert {dv, top, p + nb} - {p} == {dv, top, p + nb};
      if toDv { ReplaceDv(p + nb, size - nb); } else { BinRest(p + nb, size - nb); }
    }

    /** The small-request part of `mspace_malloc`: an exact bin or the next, then,
        if the designated victim is too small, the next bin in use, then the trees. */
    method SmallFromBins(nb: nat) returns (p: nat)
      requires Valid() && MIN_CHUNK_SIZE <= nb < 256 && nb % 8 == 0
      modifies this, mem
      ensures Valid() && KeepsPayloads(old(mem[..]), mem[..], heap)
      ensures p == 0 ==> heap == old(heap) && dv == old(dv) && dvsize == old(dvsize) && top == old(top)
                         && topsize == old(topsize) && bins == old(bins) && mem[..] == old(mem[..])
      ensures p == 0 ==> NoBinned(heap, dv, top, nb, if nb > dvsize then WORD else if nb < 240 then nb + 16 else 256)
      ensures p != 0 ==> Took(old(heap), heap, p, nb) && BestBinned(old(heap), old(dv), old(top), p, nb)
      ensures p != 0 ==> old(heap)[p].size <= nb + 8 || old(dvsize) < nb
    {
      var idx := nb / 8;
      p := 0;
      if idx in bins.smallmap || idx + 1 in bins.smallmap {
        if idx !in bins.smallmap { idx := idx + 1; }
        p := bins.small[idx][0];
        SmallEmpty(bins, nb, idx);
        Chosen(mem[..], heap, base, end, dv, dvsize, top, topsize, bins, nb, p, 8 * idx);
        TakeBinned(p, 8 * idx, nb, false);
      } else if nb > dvsize {
        p := SmallAboveDv(nb);
      } else {
        SmallEmpty(bins, nb, if idx + 2 <= 32 then idx + 2 else 32);
        BinnedEmpty(bins, heap, dv, top, nb, if nb < 240 then nb + 16 else 256);
      }
    }

    /** The designated victim is too small. */
    method SmallAboveDv(nb: nat) returns (p: nat)
      requires Valid() && MIN_CHUNK_SIZE <= nb < 256 && nb % 8 == 0 && nb > dvsize
      requires nb / 8 !in bins.smallmap
      modifies this, mem
      ensures Valid() && KeepsPayloads(old(mem[..]), mem[..], heap)
      ensures p == 0 ==> heap == old(heap) && dv == old(dv) && dvsize == old(dvsize) && top == old(top)
                         && topsize == old(topsize) && bins == old(bins) && mem[..] == old(mem[..]) && NoBinned(heap, dv, top, nb, WORD)
      ensures p != 0 ==> Took(old(heap), heap, p, nb) && BestBinned(old(heap), old(dv), old(top), p, nb)
    {
      var i := NextMarked(bins.smallmap, nb / 8 + 1);
      SmallEmpty(bins, nb, i);
      if i < NSMALLBINS {
        p := bins.small[i][0];
        Chosen(mem[..], heap, base, end, dv, dvsize, top, topsize, bins, nb, p, 8 * i);
        TakeBinned(p, 8 * i, nb, true);
      } else if bins.treemap != {} {
        var v, rsize := FindSmallest(bins, nb);
        p := v.chain[0];
        TreesEmpty(bins, nb, v.size);
        Chosen(mem[..], heap, base, end, dv, dvsize, top, topsize, bins, nb, p, v.size);
        TakeBinned(p, v.size, nb, true);
      } else {
        p := 0;
        TreesEmpty(bins, nb, WORD);
        BinnedEmpty(bins, heap, dv, top, nb, WORD);
      }
    }
  
    /** `tmalloc_large`; the designated victim is used instead if it fits at least as well. */
    method LargeFromBins(nb: nat) returns (p: nat)
      requires Valid() && 256 <= nb < WORD && nb % 8 == 0
      modifies this, mem
      ensures Valid() && KeepsPayloads(old(mem[..]), mem[..], heap)
      ensures p == 0 ==> heap == old(heap) && dv == old(dv) && dvsize == old(dvsize) && top == old(top)
                         && topsize == old(topsize) && bins == old(bins) && mem[..] == old(mem[..])
      ensures p == 0 ==> NoBinned(heap, dv, top, nb, if nb > dvsize then WORD else dvsize)
      ensures p != 0 ==> Took(old(heap), heap, p, nb) && BestBinned(old(heap), old(dv), old(top), p, nb)
      ensures p != 0 ==> old(heap)[p].size < old(dvsize) || old(dvsize) < nb
    {
      var v, rsize := FindLarge(bins, nb);
      if dvsize != 0 { ChunkBelow(heap, base, top, end, dv); }
      TremMeans(dvsize, nb);
      p := 0;
      if v.Node? && rsize < Trem(dvsize, nb) {
        p := v.chain[0];
        TreesEmpty(bins, nb, v.size);
        Chosen(mem[..], heap, base, end, dv, dvsize, top, topsize, bins, nb, p, v.size);
        TakeBinned(p, v.size, nb, false);
      } else {
        TreesEmpty(bins, nb, if nb > dvsize then WORD else dvsize);
        BinnedEmpty(bins, heap, dv, top, nb, if nb > dvsize then WORD else dvsize);
      }
    }

    /** Takes a request out of the designated victim. */
    method UseDv(nb: nat) returns (p: nat)
      requires Valid() && MIN_CHUNK_SIZE <= nb <= dvsize && nb % 8 == 0
      modifies this, mem
      ensures Valid() && KeepsPayloads(old(mem[..]), mem[..], heap)
      ensures p == old(dv) && p != 0 && Took(old(heap), heap, p, nb)
      ensures top == old(top) && topsize == old(topsize) && bins == old(bins)
      ensures if old(dvsize) - nb >= MIN_CHUNK_SIZE then dv == p + nb && dvsize == old(dvsize) - nb else dv == dvsize == 0
    {
      var rsize := dvsize - nb;
      p := dv;
      assert Linked(heap, base, top, end, p);
      if rsize >= MIN_CHUNK_SIZE {
        TakePart(p, dvsize, nb);
        MatchRest(bins, old(heap), dv, top, p, nb, heap);
        TookPart(old(heap), base, top, end, p, nb, heap);
        dv := p + nb;
        dvsize := rsize;
        assert {p, top, dv} - {p} == {dv, top};
      } else {
        TakeWhole(p, dvsize);
        MatchMark(bins, old(heap), {dv, top}, p, true);
        TookWhole(old(mem[..]), old(heap), base, top, end, p, nb, heap);
        dvsize := 0;
        dv := 0;
        assert {p, top} - {p} == {top};
        MatchNoDv(bins, heap, base, top, end);
      }
    }

    /** Takes a request out of top, which keeps a rest. */
    method UseTop(nb: nat) returns (p: nat)
      requires Valid() && MIN_CHUNK_SIZE <= nb < topsize && nb % 8 == 0
      modifies this, mem
      ensures Valid() && KeepsPayloads(old(mem[..]), mem[..], heap)
      ensures p == old(top) && p != 0 && Took(old(heap), heap, p, nb)
      ensures top == p + nb && topsize == old(topsize) - nb
      ensures dv == old(dv) && dvsize == old(dvsize) && bins == old(bins)
    {
      p := top;
      assert Linked(heap, base, top, end, p);
      topsize := topsize - nb;
      var r := p + nb;
      top := r;
      mem[r + 8] := Head(topsize, false, true);
      mem[p + 8] := Head(nb, true, true);
      heap := Mark(Split(heap, p, nb, p), p, true);
      TopTaken(old(mem[..]), old(heap), base, p, end, nb, mem[..], heap, r);
      MatchRest(bins, old(heap), dv, p, p, nb, heap);
      assert dv != p by { assert dvsize == 0 ==> dv == 0; }
      assert {dv, p, r} - {p} == {dv, top};
      TookPart(old(heap), base, p, end, p, nb, heap);
    }
  
    /** The designated victim, or else top, when no binned chunk was taken. */
    method FromDvOrTop(nb: nat) returns (p: nat)
      requires Valid() && MIN_CHUNK_SIZE <= nb && (nb % 8 == 0 || nb >= SIZE_LIMIT)
      requires nb <= dvsize || nb >= SIZE_LIMIT || NoBinned(heap, dv, top, nb, WORD)
      modifies this, mem
      ensures Valid() && KeepsPayloads(old(mem[..]), mem[..], heap)
      ensures p == 0 ==> NothingFits(old(heap), old(top), nb)
      ensures p == 0 ==> heap == old(heap) && top == old(top) && dv == old(dv) && bins == old(bins)
      ensures p != 0 ==> Took(old(heap), heap, p, nb) && (p == old(dv) || p == old(top))
      ensures p != 0 ==> nb <= old(heap)[p].size && nb < SIZE_LIMIT && !NothingFits(old(heap), old(top), nb)
      ensures p == old(top) ==> forall a :: a in old(heap) && !old(heap)[a].inuse && a != old(top) ==> old(heap)[a].size < nb
    {
      ChunkBelow(heap, base, top, end, top);
      if dvsize != 0 { ChunkBelow(heap, base, top, end, dv); }
      if nb <= dvsize {
        p := UseDv(nb);
        return;
      }
      NothingElse(mem[..], heap, base, end, dv, dvsize, top, topsize, bins, nb);
      if nb < topsize {
        p := UseTop(nb);
        return;
      }
      p := 0;
    }

    /** `mspace_malloc`: the address handed out, or 0. */
    method Malloc(bytes: nat) returns (ret: nat)
      requires Valid()
      modifies this, mem
      ensures Valid() && KeepsPayloads(old(mem[..]), mem[..], heap)
      ensures ret == 0 <==> NoRoom(old(heap), old(top), bytes)
      ensures ret == 0 ==> heap == old(heap) && top == old(top) && dv == old(dv) && bins == old(bins)
      ensures ret != 0 ==> ret > 16 && ret - 16 in old(heap) && ret - 16 in heap && ret % 8 == 0
      ensures ret != 0 ==> Live(heap) == Live(old(heap))[ret - 16 := heap[ret - 16].size]
      ensures ret != 0 ==> OwnsBytes(heap, ret - 16, ret, bytes)
      ensures ret != 0 ==> heap[ret - 16].size < 32 + (if bytes < 24 then 32 else bytes + 16)
      ensures ret != 0 ==> Served(old(heap), old(dv), old(top), heap, ret - 16, bytes)
    {
      NothingFitsMeans(heap, base, top, end, bytes);
      var p := MallocChunk(bytes);
      if p == 0 { return 0; }
      ret := p + 16;
      assert AlignedAt(old(heap), p);
      ServedMeans(old(heap), old(dv), old(top), heap, p, bytes);
    }

    /** The chunk handed out, or 0. */
    method MallocChunk(bytes: nat) returns (p: nat)
      requires Valid()
      modifies this, mem
      ensures Valid() && KeepsPayloads(old(mem[..]), mem[..], heap)
      ensures p == 0 <==> NothingFits(old(heap), old(top), ChunkFor(bytes))
      ensures p == 0 ==> heap == old(heap) && top == old(top) && dv == old(dv) && bins == old(bins)
      ensures p != 0 ==> Took(old(heap), heap, p, ChunkFor(bytes))
      ensures p != 0 ==> Fit(old(heap), old(dv), old(top), p, ChunkFor(bytes), bytes <= MAX_SMALL_REQUEST)
    {
      var nb := ChunkFor(bytes);
      PadMeans(bytes);
      p := 0;
      if bytes <= MAX_SMALL_REQUEST {
        p := SmallFromBins(nb);
      } else if bytes < MAX_REQUEST {
        if bins.treemap != {} {
          p := LargeFromBins(nb);
        } else {
          NoTrees(bins, heap, dv, top, nb);
        }
      }
      if p == 0 {
        if dvsize != 0 { ChunkBelow(heap, base, top, end, dv); }
        p := FromDvOrTop(nb);
      }
    }

    // ----- free -----

    /** The half-way state of a free: `p` is free, in no bin, and to be tagged. */
    ghost predicate MidFree(p: nat, next: nat)
      reads this, mem
    {
      FreeOk(mem[..], heap, base, end, dv, dvsize, top, topsize, bins, p, next)
    }

    /** `set_free_with_pinuse` */
    method TagFree(p: nat, size: nat, next: nat)
      requires Freeing(mem[..], heap, base, top, end, p, next) && PrevInUse(heap, base, p) && heap[next].inuse
      requires heap[p].size == size
      modifies mem
      ensures HeapOk(mem[..], heap, base, top, end) && KeepsPayloads(old(mem[..]), mem[..], heap)
    {
      assert AlignedAt(heap, next) && Linked(heap, base, top, end, p);
      HeadParts(heap[next].size, true, true);
      HeadParts(heap[next].size, true, false);
      mem[next + 8] := ClearPInUse(mem[next + 8]);
      mem[p + 8] := Head(size, false, true);
      mem[next] := size;
      assert mem[..] == old(mem[..])[p + 8 := Head(size, false, true)][next := size][next + 8 := mem[next + 8]];
      FreeEnds(old(mem[..]), heap, base, top, end, p, next, mem[..]);
    }

    /** The freed chunk joins a free one before it, which leaves its bin. */
    method ConsolidateBackward(p: nat, next: nat) returns (prev: nat)
      requires MidFree(p, next) && !PrevInUse(heap, base, p) && dv != p
      modifies `heap, `bins
      ensures MidFree(prev, next) && PrevInUse(heap, base, prev)
      ensures heap[next].inuse == old(heap)[next].inuse && heap[next].size == old(heap)[next].size
      ensures Live(heap) == Live(old(heap))
      ensures prev == old(heap)[p].prev && prev in old(heap) && prev in heap && p !in heap
      ensures heap[prev].size == old(heap)[prev].size + old(heap)[p].size
    {
      assert Linked(heap, base, top, end, p) && TagOk(mem[..], heap, base, top, heap[p].prev);
      assert Linked(heap, base, top, end, heap[p].prev);
      var prevsize := mem[p];
      prev := p - prevsize;
      assert prev == heap[p].prev;
      LiveJoin(heap, prev, p, top);
      JoinBack(mem[..], heap, base, top, end, p, next, Join(heap, prev, top));
      if prev != dv {
        bins := UnlinkChunk(bins, prev, prevsize);
        MatchUnlink(old(bins), heap, {dv, top, p}, prev, bins);
        assert {dv, top, p} + {prev} - {p} == {dv, top, prev};
        MatchJoin(bins, heap, {dv, top, p} + {prev}, prev, p, top, Join(heap, prev, top));
      } else {
        assert {dv, top, p} - {p} == {dv, top, prev};
        MatchJoin(bins, heap, {dv, top, p}, prev, p, top, Join(heap, prev, top));
      }
      heap := Join(heap, prev, top);
    }
  
    /** `set_size_and_pinuse_of_free_chunk`, when the chunk behind is already told. */
    method TagMerged(p: nat, size: nat, ghost next: nat)
      requires Freeing(mem[..], heap, base, top, end, p, next) && PrevInUse(heap, base, p) && heap[next].inuse
      requires heap[p].size == size && mem[next + 8] == Head(heap[next].size, true, false)
      modifies mem
      ensures HeapOk(mem[..], heap, base, top, end) && KeepsPayloads(old(mem[..]), mem[..], heap)
    {
      assert Linked(heap, base, top, end, p);
      mem[p + 8] := Head(size, false, true);
      mem[p + size] := size;
      assert mem[..] == old(mem[..])[p + 8 := Head(size, false, true)][next := size][next + 8 := mem[next + 8]];
      FreeEnds(old(mem[..]), heap, base, top, end, p, next, mem[..]);
    }

    /** The freed chunk becomes the start of top. */
    method MergeIntoTop(p: nat, psize: nat)
      requires MidFree(p, top) && PrevInUse(heap, base, p) && heap[p].size == psize
      modifies this, mem
      ensures Valid() && KeepsPayloads(old(mem[..]), mem[..], heap) && Live(heap) == Live(old(heap))
      ensures top == p && topsize == old(topsize) + psize && bins == old(bins)
      ensures if p == old(dv) then dv == dvsize == 0 else dv == old(dv) && dvsize == old(dvsize)
    {
      assert Linked(heap, base, top, end, p) && Linked(heap, base, top, end, top);
      ghost var h := Join(heap, p, top);
      LiveJoin(heap, p, top, top);
      MatchJoin(bins, heap, {dv, top, p}, p, top, top, h);
      topsize := topsize + psize;
      mem[p + 8] := Head(topsize, false, true);
      FreeIntoTop(old(mem[..]), heap, base, top, end, p, h, mem[..]);
      if p == dv {
        dv, dvsize := 0, 0;
        assert {p, top, p} - {top} == {p};
        MatchNoDv(bins, h, base, p, end);
      } else {
        assert dv != top && {dv, top, p} - {top} == {dv, p};
      }
      top := p;
      heap := h;
    }

    /** The freed chunk becomes the start of the designated victim. */
    method MergeIntoDv(p: nat, psize: nat)
      requires MidFree(p, dv) && PrevInUse(heap, base, p) && heap[p].size == psize && p != dv
      modifies this, mem
      ensures Valid() && KeepsPayloads(old(mem[..]), mem[..], heap) && Live(heap) == Live(old(heap))
      ensures dv == p && dvsize == old(dvsize) + psize
      ensures top == old(top) && topsize == old(topsize) && bins == old(bins)
    {
      assert Linked(heap, base, top, end, p) && Linked(heap, base, top, end, dv);
      ghost var h, next := Join(heap, p, top), dv;
      LiveJoin(heap, p, next, top);
      JoinForward(mem[..], heap, base, top, end, p, next, next + dvsize, h);
      MatchJoin(bins, heap, {dv, top, p}, p, next, top, h);
      assert {dv, top, p} - {next} == {p, top};
      heap := h;
      dvsize := dvsize + psize;
      dv := p;
      TagMerged(p, dvsize, next + old(dvsize));
    }

    /** A binned chunk leaves its bin and is joined to the freed one before it. */
    method TakeInNext(p: nat, psize: nat, next: nat) returns (nsize: nat)
      requires MidFree(p, next) && PrevInUse(heap, base, p) && heap[p].size == psize && !heap[next].inuse
      requires next != top && next != dv
      modifies `bins, `heap
      ensures next in old(heap) && nsize == old(heap)[next].size && next !in heap && Live(heap) == Live(old(heap))
      ensures MidFree(p, next + nsize) && PrevInUse(heap, base, p) && heap[p].size == psize + nsize
      ensures heap[next + nsize].inuse && mem[next + nsize + 8] == Head(heap[next + nsize].size, true, false)
    {
      assert Linked(heap, base, top, end, next) && AlignedAt(heap, next);
      HeadParts(heap[next].size, false, true);
      HeadParts(heap[next].size, false, false);
      nsize := ChunkSize(mem[next + 8]);
      ghost var h := Join(heap, p, top);
      TakenIn(mem[..], heap, base, end, dv, dvsize, top, topsize, bins, p, next, UnlinkChunk(bins, next, nsize), h);
      bins := UnlinkChunk(bins, next, nsize);
      heap := h;
    }

    /** The freed chunk takes in a binned chunk behind it. */
    method MergeWithNext(p: nat, psize: nat, next: nat)
      requires MidFree(p, next) && PrevInUse(heap, base, p) && heap[p].size == psize && !heap[next].inuse
      requires next != top && next != dv
      modifies this, mem
      ensures Valid() && KeepsPayloads(old(mem[..]), mem[..], heap) && Live(heap) == Live(old(heap))
      ensures next in old(heap) && next !in heap && Settled(p, psize + old(heap)[next].size, old(dv), old(dvsize))
      ensures top == old(top) && topsize == old(topsize)
    {
      var nsize := TakeInNext(p, psize, next);
      TagMerged(p, psize + nsize, next + nsize);
      BinMerged(p, psize + nsize);
    }

    /** The free chunk at `p` is the designated victim, if it was that before, or else in its bin. */
    ghost predicate Settled(p: nat, size: nat, dv0: nat, dvsize0: nat)
      requires Shaped(bins)
      reads this
    {
      && p in heap && !heap[p].inuse && heap[p].size == size && dv == dv0
      && if p == dv0 then dvsize == size else dvsize == dvsize0 && p in Bin(bins, size)
    }

    /** A tagged free chunk is the designated victim, grown, or goes to its bin. */
    method BinMerged(p: nat, psize: nat)
      requires 0 < base && end - base < SIZE_LIMIT && HeapOk(mem[..], heap, base, top, end) && heap[top].size == topsize
      requires Ok(bins) && Match(bins, heap, {dv, top, p}) && (dv == p || DvOk(heap, dv, dvsize, top))
      requires p in heap && p != top && !heap[p].inuse && heap[p].size == psize
      modifies this
      ensures Valid() && heap == old(heap) && top == old(top) && topsize == old(topsize)
      ensures Settled(p, psize, old(dv), old(dvsize))
    {
      if p == dv {
        dvsize := psize;
        assert Linked(heap, base, top, end, p) && {dv, top, p} == {dv, top};
      } else {
        BinRest(p, psize);
      }
    }

    /** `mspace_free` of an address handed out, or 0. */
    method Free(ret: nat)
      requires Valid() && (ret != 0 ==> ret >= 16 && ret - 16 in Live(heap))
      modifies this, mem
      ensures Valid() && KeepsPayloads(old(mem[..]), mem[..], heap)
      ensures Live(heap) == if ret == 0 then Live(old(heap)) else Live(old(heap)) - {ret - 16}
    {
      if ret == 0 { return; }
      var p := ret - 16;
      assert TagOk(mem[..], heap, base, top, p) && AlignedAt(heap, p) && Linked(heap, base, top, end, p);
      HeadParts(heap[p].size, true, PrevInUse(heap, base, p));
      var head := mem[p + 8];
      var psize := ChunkSize(head);
      var next := p + psize;
      FreeBegins(mem[..], heap, base, top, end, p, Mark(heap, p, false));
      LiveMark(heap, p, false);
      MatchMark(bins, heap, {dv, top, p}, p, false);
      heap := Mark(heap, p, false);
      if !PInUse(head) {
        p := ConsolidateBackward(p, next);
        psize := next - p;
      }
      assert AlignedAt(heap, next);
      HeadParts(heap[next].size, heap[next].inuse, true);
      if CInUse(mem[next + 8]) {
        TagFree(p, psize, next);
        BinMerged(p, psize);
      } else if next == top {
        MergeIntoTop(p, psize);
      } else if next == dv {
        MergeIntoDv(p, psize);
      } else {
        MergeWithNext(p, psize, next);
      }
    }
  
    /** The holder of a chunk writes a word of it: no boundary tag is lost. */
    method Store(ret: nat, x: nat, value: nat)
      requires Valid() && ret >= 16 && ret - 16 in Live(heap) && InPayload(heap, ret - 16, x)
      modifies mem
      ensures Valid() && x < mem.Length && mem[..] == old(mem[..])[x := value]
    {
      PayloadWritten(mem[..], heap, base, top, end, ret - 16, x, value);
      mem[x] := value;
    }
  }
}
