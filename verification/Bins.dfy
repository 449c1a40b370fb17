/** All the bins of an mspace: small bins of one size each, tree bins above
    them, and the maps of those in use (src/dlmalloc/dlmalloc.c). */
module Bins {
  import opened Bits
  import opened Sets
  import opened Trie
  import opened TreeBins
  import opened BestFit

  const NSMALLBINS: nat := 32

  /** `small[i]` lists the chunks of small bin `i` in `fd` order. The maps hold
      the indices of the bins whose bit is set. */
  datatype Bins = Bins(small: seq<seq<nat>>, smallmap: set<nat>, tree: seq<Trie>, treemap: set<nat>)

  predicate IsSmall(size: nat) {
    size / 8 < NSMALLBINS
  }

  predicate Shaped(b: Bins) {
    |b.small| == NSMALLBINS && |b.tree| == NTREEBINS
  }

  /** The chunks binned under a size. */
  function Bin(b: Bins, size: nat): seq<nat>
    requires Shaped(b)
  {
    if IsSmall(size) then (if size % 8 == 0 then b.small[size / 8] else [])
    else InTree(b.tree, size)
  }

  function InTree(tree: seq<Trie>, size: nat): seq<nat>
    requires |tree| == NTREEBINS
  {
    var i := ComputeTreeIndex(size);
    if i < NTREEBINS then Chain(tree[i], size, BinLow(i), BinBits(i)) else []
  }

  ghost predicate SmallOk(small: seq<seq<nat>>, smallmap: set<nat>) {
    && |small| == NSMALLBINS
    && (forall i :: 0 <= i < NSMALLBINS ==> NoRepeats(small[i]))
    && (forall i :: i in smallmap <==> 0 <= i < NSMALLBINS && small[i] != [])
  }

  ghost predicate TreeOk(tree: seq<Trie>, treemap: set<nat>) {
    && BinsOk(tree, treemap)
    && (forall s: nat :: NoRepeats(InTree(tree, s)))
  }

  /** Each bin is well formed and the maps tell which are in use. */
  ghost predicate Ok(b: Bins) {
    SmallOk(b.small, b.smallmap) && TreeOk(b.tree, b.treemap)
  }

  /** `init_bins` */
  function NoBins(): Bins {
    Bins(seq(NSMALLBINS, _ => []), {}, seq(NTREEBINS, _ => Nil), {})
  }

  lemma NoBinsOk()
    ensures Ok(NoBins())
    ensures forall s: nat :: Bin(NoBins(), s) == []
  {
  }

  // ----- tree bins by size -----

  /** A size is in one tree bin at most: its own. */
  lemma OwnBin(tree: seq<Trie>, treemap: set<nat>, i: nat, s: nat)
    requires BinsOk(tree, treemap) && i < NTREEBINS && s in Sizes(tree[i])
    ensures ComputeTreeIndex(s) == i && InTree(tree, s) == Chain(tree[i], s, BinLow(i), BinBits(i))
    ensures InTree(tree, s) != [] && 256 <= s < SIZE_LIMIT
  {
    assert BinOk(tree[i], i);
    IndexCorrect(s);
    BelongsUnique(s, i, ComputeTreeIndex(s));
    ChainSizes(tree[i], s, BinLow(i), BinBits(i));
  }

  lemma InOwnBin(tree: seq<Trie>, treemap: set<nat>, s: nat)
    requires BinsOk(tree, treemap) && InTree(tree, s) != []
    ensures ComputeTreeIndex(s) < NTREEBINS && s in Sizes(tree[ComputeTreeIndex(s)])
    ensures 256 <= s < SIZE_LIMIT
  {
    var i := ComputeTreeIndex(s);
    assert BinOk(tree[i], i);
    ChainSizes(tree[i], s, BinLow(i), BinBits(i));
  }

  /** Bins hold ever larger sizes. */
  lemma BinsOrdered(i: nat, s: nat, j: nat, s': nat)
    requires i < j < NTREEBINS && Belongs(s, i) && Belongs(s', j)
    ensures s < s'
  {
    if i + 1 < j { MinSizeOrder(i + 1, j); }
  }

  // ----- insert and unlink -----

  function InsertSmall(b: Bins, a: nat, size: nat): Bins
    requires Shaped(b) && IsSmall(size)
  {
    var i := size / 8;
    b.(small := b.small[i := [a] + b.small[i]], smallmap := b.smallmap + {i})
  }

  function InsertLarge(b: Bins, a: nat, size: nat): Bins
    requires Shaped(b)
  {
    var i := ComputeTreeIndex(size);
    if i < NTREEBINS then
      b.(tree := b.tree[i := Insert(b.tree[i], size, a, BinLow(i), BinBits(i))], treemap := b.treemap + {i})
    else b
  }

  /** `insert_chunk` */
  function InsertChunk(b: Bins, a: nat, size: nat): Bins
    requires Shaped(b)
  {
    if IsSmall(size) then InsertSmall(b, a, size) else InsertLarge(b, a, size)
  }

  function UnlinkSmall(b: Bins, a: nat, size: nat): Bins
    requires Shaped(b) && IsSmall(size)
  {
    var i := size / 8;
    var rest := Without(b.small[i], a);
    b.(small := b.small[i := rest], smallmap := if rest == [] then b.smallmap - {i} else b.smallmap)
  }

  function UnlinkLarge(b: Bins, a: nat, size: nat): Bins
    requires Shaped(b)
  {
    var i := ComputeTreeIndex(size);
    if i < NTREEBINS then
      var t := Unlink(b.tree[i], size, a, BinLow(i), BinBits(i));
      b.(tree := b.tree[i := t], treemap := if t.Nil? then b.treemap - {i} else b.treemap)
    else b
  }

  /** `unlink_chunk` */
  function UnlinkChunk(b: Bins, a: nat, size: nat): Bins
    requires Shaped(b)
  {
    if IsSmall(size) then UnlinkSmall(b, a, size) else UnlinkLarge(b, a, size)
  }

  /** What inserting is for: the chunk is binned under its size, and nothing else changes. */
  ghost predicate Added(b: Bins, b': Bins, a: nat, size: nat)
    requires Shaped(b) && Shaped(b')
  {
    forall s: nat, x: nat :: x in Bin(b', s) <==> x in Bin(b, s) || (x == a && s == size)
  }

  ghost predicate Removed(b: Bins, b': Bins, a: nat, size: nat)
    requires Shaped(b) && Shaped(b')
  {
    forall s: nat, x: nat :: x in Bin(b', s) <==> x in Bin(b, s) && !(x == a && s == size)
  }

  lemma InsertSmallAdds(b: Bins, a: nat, size: nat)
    requires Ok(b) && IsSmall(size) && size % 8 == 0 && a !in Bin(b, size)
    ensures Ok(InsertSmall(b, a, size)) && Added(b, InsertSmall(b, a, size), a, size)
  {
    SmallUpdated(b, size / 8, [a] + b.small[size / 8], b.smallmap + {size / 8});
    OneSmallBin(b, InsertSmall(b, a, size), size);
  }

  lemma UnlinkSmallRemoves(b: Bins, a: nat, size: nat)
    requires Ok(b) && IsSmall(size) && a in Bin(b, size)
    ensures Ok(UnlinkSmall(b, a, size)) && Removed(b, UnlinkSmall(b, a, size), a, size)
  {
    WithoutMembers(b.small[size / 8], a);
    OneSmallBin(b, UnlinkSmall(b, a, size), size);
  }

  lemma SmallUpdated(b: Bins, i: nat, bin: seq<nat>, m: set<nat>)
    requires SmallOk(b.small, b.smallmap) && i < NSMALLBINS && NoRepeats(bin)
    requires m == if bin == [] then b.smallmap - {i} else b.smallmap + {i}
    ensures SmallOk(b.small[i := bin], m)
  {
  }

  /** Small bins are 8 bytes apart: changing one changes one size. */
  lemma OneSmallBin(b: Bins, b': Bins, size: nat)
    requires Shaped(b) && Shaped(b') && b'.tree == b.tree && IsSmall(size) && size % 8 == 0
    requires b'.small == b.small[size / 8 := b'.small[size / 8]]
    ensures Bin(b', size) == b'.small[size / 8]
    ensures forall s: nat :: s != size ==> Bin(b', s) == Bin(b, s)
  {
    forall s: nat | s != size ensures Bin(b', s) == Bin(b, s) {
      if s % 8 == 0 { assert s / 8 != size / 8; }
    }
  }

  lemma TreeUpdated(tree: seq<Trie>, treemap: set<nat>, i: nat, t: Trie, m: set<nat>)
    requires BinsOk(tree, treemap) && i < NTREEBINS && BinOk(t, i)
    requires m == if t.Nil? then treemap - {i} else treemap + {i}
    ensures BinsOk(tree[i := t], m)
  {
  }

  /** A change of one ring of one tree changes one size. */
  lemma OneRing(tree: seq<Trie>, i: nat, t: Trie, size: nat, ring: seq<nat>, s: nat)
    requires |tree| == NTREEBINS && ComputeTreeIndex(size) == i < NTREEBINS
    requires Chain(t, s, BinLow(i), BinBits(i)) == if s == size then ring else Chain(tree[i], s, BinLow(i), BinBits(i))
    ensures InTree(tree[i := t], s) == if s == size then ring else InTree(tree, s)
  {
    if ComputeTreeIndex(s) == i { assert tree[i := t][i] == t; }
  }

  lemma RingsUpdated(tree: seq<Trie>, treemap: set<nat>, i: nat, t: Trie, size: nat, ring: seq<nat>,
                     tree': seq<Trie>, treemap': set<nat>)
    requires TreeOk(tree, treemap) && ComputeTreeIndex(size) == i < NTREEBINS && BinOk(t, i)
    requires tree' == tree[i := t] && treemap' == if t.Nil? then treemap - {i} else treemap + {i}
    requires NoRepeats(ring)
    requires forall s: nat ::
      Chain(t, s, BinLow(i), BinBits(i)) == if s == size then ring else Chain(tree[i], s, BinLow(i), BinBits(i))
    ensures TreeOk(tree', treemap')
    ensures forall s: nat :: InTree(tree', s) == if s == size then ring else InTree(tree, s)
  {
    TreeUpdated(tree, treemap, i, t, treemap');
    forall s: nat
      ensures InTree(tree', s) == (if s == size then ring else InTree(tree, s)) && NoRepeats(InTree(tree', s))
    {
      RingUpdated(tree, treemap, i, t, size, ring, tree', s);
    }
  }

  lemma RingUpdated(tree: seq<Trie>, treemap: set<nat>, i: nat, t: Trie, size: nat, ring: seq<nat>,
                    tree': seq<Trie>, s: nat)
    requires TreeOk(tree, treemap) && ComputeTreeIndex(size) == i < NTREEBINS && tree' == tree[i := t]
    requires NoRepeats(ring)
    requires Chain(t, s, BinLow(i), BinBits(i)) == if s == size then ring else Chain(tree[i], s, BinLow(i), BinBits(i))
    ensures InTree(tree', s) == (if s == size then ring else InTree(tree, s)) && NoRepeats(InTree(tree', s))
  {
    OneRing(tree, i, t, size, ring, s);
    assert NoRepeats(InTree(tree, s));
  }

  lemma InsertLargeAdds(b: Bins, a: nat, size: nat)
    requires Ok(b) && !IsSmall(size) && size < SIZE_LIMIT && a !in Bin(b, size)
    ensures Ok(InsertLarge(b, a, size)) && Added(b, InsertLarge(b, a, size), a, size)
  {
    IndexCorrect(size);
    var i := ComputeTreeIndex(size);
    var b' := InsertLarge(b, a, size);
    InsertedTree(b.tree[i], i, a, size);
    EnchainMembers(Bin(b, size), a);
    RingsUpdated(b.tree, b.treemap, i, b'.tree[i], size, Enchain(Bin(b, size), a), b'.tree, b'.treemap);
  }

  lemma InsertedTree(t: Trie, i: nat, a: nat, size: nat)
    requires i < NTREEBINS && BinOk(t, i) && Belongs(size, i) && 256 <= size < SIZE_LIMIT
    ensures var t' := Insert(t, size, a, BinLow(i), BinBits(i));
      && BinOk(t', i) && t'.Node?
      && forall s: nat :: Chain(t', s, BinLow(i), BinBits(i)) ==
           if s == size then Enchain(Chain(t, s, BinLow(i), BinBits(i)), a) else Chain(t, s, BinLow(i), BinBits(i))
  {
    BelongsInRange(size, i);
    InsertKeeps(t, size, a, BinLow(i), BinBits(i));
    assert size in Sizes(Insert(t, size, a, BinLow(i), BinBits(i)));
  }

  lemma UnlinkedTree(t: Trie, i: nat, a: nat, size: nat)
    requires i < NTREEBINS && BinOk(t, i) && size in Sizes(t)
    ensures var t' := Unlink(t, size, a, BinLow(i), BinBits(i));
      && BinOk(t', i)
      && forall s: nat :: Chain(t', s, BinLow(i), BinBits(i)) ==
           if s == size then Unchain(Chain(t, s, BinLow(i), BinBits(i)), a) else Chain(t, s, BinLow(i), BinBits(i))
  {
    UnlinkKeeps(t, size, a, BinLow(i), BinBits(i));
  }

  lemma UnlinkLargeRemoves(b: Bins, a: nat, size: nat)
    requires Ok(b) && !IsSmall(size) && a in Bin(b, size)
    ensures Ok(UnlinkLarge(b, a, size)) && Removed(b, UnlinkLarge(b, a, size), a, size)
  {
    InOwnBin(b.tree, b.treemap, size);
    var i := ComputeTreeIndex(size);
    var b' := UnlinkLarge(b, a, size);
    UnlinkedTree(b.tree[i], i, a, size);
    UnchainMembers(Bin(b, size), a);
    assert b.treemap + {i} == b.treemap;
    RingsUpdated(b.tree, b.treemap, i, b'.tree[i], size, Unchain(Bin(b, size), a), b'.tree, b'.treemap);
  }

  /** Inserting a chunk bins it, once, under its size. */
  lemma InsertAdds(b: Bins, a: nat, size: nat)
    requires Ok(b) && size % 8 == 0 && size < SIZE_LIMIT && a !in Bin(b, size)
    ensures Ok(InsertChunk(b, a, size)) && Added(b, InsertChunk(b, a, size), a, size)
  {
    if IsSmall(size) { InsertSmallAdds(b, a, size); } else { InsertLargeAdds(b, a, size); }
  }

  /** Unlinking takes out that chunk and no other. */
  lemma UnlinkRemoves(b: Bins, a: nat, size: nat)
    requires Ok(b) && a in Bin(b, size)
    ensures Ok(UnlinkChunk(b, a, size)) && Removed(b, UnlinkChunk(b, a, size), a, size)
  {
    if IsSmall(size) { UnlinkSmallRemoves(b, a, size); } else { UnlinkLargeRemoves(b, a, size); }
  }

  // ----- best fit -----

  /** The least index from `i` on whose bin is in use, or the number of bins. */
  function NextMarked(bitmap: set<nat>, i: nat): (r: nat)
    requires i <= 32
    ensures i <= r <= 32 && (r < 32 ==> r in bitmap)
    ensures forall j :: i <= j < r ==> j !in bitmap
    decreases 32 - i
  {
    if i == 32 || i in bitmap then i else NextMarked(bitmap, i + 1)
  }

  ghost function AllSizes(tree: seq<Trie>): set<nat> {
    set i, s | 0 <= i < |tree| && s in Sizes(tree[i]) :: s
  }

  /** The sizes in the trees are those with a chunk. */
  lemma AllSizesBinned(tree: seq<Trie>, treemap: set<nat>, s: nat)
    requires BinsOk(tree, treemap)
    ensures s in AllSizes(tree) <==> InTree(tree, s) != []
  {
    if s in AllSizes(tree) {
      var i :| 0 <= i < |tree| && s in Sizes(tree[i]);
      OwnBin(tree, treemap, i, s);
    }
    if InTree(tree, s) != [] { InOwnBin(tree, treemap, s); }
  }

  /** Bins below the request's own are too small, bins above are large enough. */
  lemma OtherBins(tree: seq<Trie>, treemap: set<nat>, nb: nat, i: nat, j: nat, s: nat)
    requires BinsOk(tree, treemap) && i < NTREEBINS && j < NTREEBINS && i != j
    requires Belongs(nb, i) && s in Sizes(tree[j])
    ensures s >= nb <==> j > i
    ensures s != nb
  {
    assert BinOk(tree[j], j);
    if j < i { BinsOrdered(j, s, i, nb); } else { BinsOrdered(i, nb, j, s); }
  }

  /** A fit in the request's own bin is the best in all. */
  lemma OwnEnough(tree: seq<Trie>, treemap: set<nat>, nb: nat, i: nat, v: Trie, rsize: nat)
    requires BinsOk(tree, treemap) && i < NTREEBINS && Belongs(nb, i)
    requires Best(v, rsize, nb, Sizes(tree[i])) && v.Node?
    ensures Best(v, rsize, nb, AllSizes(tree))
  {
    assert BinOk(tree[i], i);
    forall s | s in AllSizes(tree) && s >= nb ensures v.size <= s {
      var j :| 0 <= j < |tree| && s in Sizes(tree[j]);
      if j != i {
        OtherBins(tree, treemap, nb, i, j, s);
        BinsOrdered(i, v.size, j, s);
      }
    }
  }

  /** With none there, the best of the next bin in use is. */
  lemma NextEnough(tree: seq<Trie>, treemap: set<nat>, nb: nat, i: nat, n: nat, v: Trie, rsize: nat)
    requires BinsOk(tree, treemap) && i < NTREEBINS && Belongs(nb, i)
    requires n == NextMarked(treemap, i + 1)
    requires forall s <- Sizes(tree[i]) :: s < nb
    requires Best(v, rsize, nb, if n < NTREEBINS then Sizes(tree[i]) + Sizes(tree[n]) else Sizes(tree[i]))
    ensures Best(v, rsize, nb, AllSizes(tree))
  {
    forall s | s in AllSizes(tree) && s >= nb ensures v.Node? && v.size <= s {
      var j :| 0 <= j < |tree| && s in Sizes(tree[j]);
      assert j != i;
      OtherBins(tree, treemap, nb, i, j, s);
      assert j in treemap;
      assert n <= j;
      assert BinOk(tree[n], n) && BinOk(tree[j], j);
      assert v.Node? by {
        if n != j {
          var x := tree[n].size;
          assert x in Sizes(tree[n]);
          OtherBins(tree, treemap, nb, i, n, x);
        }
      }
      if n < j { BinsOrdered(n, v.size, j, s); }
    }
  }

  lemma BinFacts(tree: seq<Trie>, treemap: set<nat>, i: nat, nb: nat)
    requires BinsOk(tree, treemap) && i < NTREEBINS
    ensures Fits(tree[i], BinLow(i), BinBits(i)) && forall s <- Sizes(tree[i]) :: Belongs(s, i) && 256 <= s < SIZE_LIMIT
  {
    assert BinOk(tree[i], i);
  }

  lemma RequestBin(nb: nat)
    requires 256 <= nb < WORD
    ensures ComputeTreeIndex(nb) < NTREEBINS
    ensures nb < SIZE_LIMIT ==>
      && Belongs(nb, ComputeTreeIndex(nb))
      && BinLow(ComputeTreeIndex(nb)) <= nb < BinLow(ComputeTreeIndex(nb)) + Pow2(BinBits(ComputeTreeIndex(nb)))
  {
    IndexCorrectIff(nb);
    if nb < SIZE_LIMIT { BelongsInRange(nb, ComputeTreeIndex(nb)); }
  }

  /** The next bin in use lies on one side of the request, and nothing is found yet. */
  lemma NextReady(tree: seq<Trie>, treemap: set<nat>, nb: nat, i: nat, n: nat)
    requires BinsOk(tree, treemap) && i < n < NTREEBINS && nb < WORD && (Belongs(nb, i) || nb >= SIZE_LIMIT)
    requires n in treemap && forall s <- Sizes(tree[i]) :: s < nb
    ensures BestButFor(Nil, WORD - nb, nb, Sizes(tree[i]) + Sizes(tree[n]), tree[n])
    ensures Sorted(tree[n], Nil, WORD - nb, nb)
  {
    BinFacts(tree, treemap, n, nb);
    if nb < SIZE_LIMIT {
      forall s | s in Sizes(tree[n]) ensures s >= nb { OtherBins(tree, treemap, nb, i, n, s); }
    }
  }

  /** The best in the bins searched is the best in all. */
  lemma Concluded(tree: seq<Trie>, treemap: set<nat>, nb: nat, i: nat, n: nat, v: Trie, rsize: nat, sizes: set<nat>)
    requires BinsOk(tree, treemap) && i < NTREEBINS && (Belongs(nb, i) || nb >= SIZE_LIMIT)
    requires Best(v, rsize, nb, sizes)
    requires if n == i then sizes == Sizes(tree[i]) && (v.Node? || nb >= SIZE_LIMIT)
             else && n == NextMarked(treemap, i + 1) && (forall s <- Sizes(tree[i]) :: s < nb)
                  && sizes == if n < NTREEBINS then Sizes(tree[i]) + Sizes(tree[n]) else Sizes(tree[i])
    ensures Best(v, rsize, nb, AllSizes(tree))
  {
    if nb >= SIZE_LIMIT {
      forall s | s in AllSizes(tree) ensures s < nb {
        var j :| 0 <= j < |tree| && s in Sizes(tree[j]);
        BinFacts(tree, treemap, j, nb);
      }
      BinFacts(tree, treemap, i, nb);
    } else if n == i {
      OwnEnough(tree, treemap, nb, i, v, rsize);
    } else {
      NextEnough(tree, treemap, nb, i, n, v, rsize);
    }
  }

  /** `tmalloc_large`, the search. */
  method FindLarge(b: Bins, nb: nat) returns (v: Trie, rsize: nat)
    requires Ok(b) && 256 <= nb < WORD
    ensures Best(v, rsize, nb, AllSizes(b.tree))
    ensures v.Node? ==> v.chain != [] && v.chain == InTree(b.tree, v.size)
  {
    var i := ComputeTreeIndex(nb);
    RequestBin(nb);
    BinFacts(b.tree, b.treemap, i, nb);
    var t;
    ghost var lo: nat, h: nat := 0, 0;
    t, v, rsize, lo, h := WalkPath(b.tree[i], i, nb, BinLow(i), BinBits(i));
    if t.Nil? && v.Nil? {
      var n := NextMarked(b.treemap, i + 1);
      if n < NTREEBINS {
        BinFacts(b.tree, b.treemap, n, nb);
        NextReady(b.tree, b.treemap, nb, i, n);
        v, rsize := LeastAlong(b.tree[n], v, rsize, nb, Sizes(b.tree[i]) + Sizes(b.tree[n]), BinLow(n), BinBits(n));
        Concluded(b.tree, b.treemap, nb, i, n, v, rsize, Sizes(b.tree[i]) + Sizes(b.tree[n]));
        if v.Node? { OwnBin(b.tree, b.treemap, n, v.size); }
      } else {
        Concluded(b.tree, b.treemap, nb, i, n, v, rsize, Sizes(b.tree[i]));
      }
    } else {
      v, rsize := LeastAlong(t, v, rsize, nb, Sizes(b.tree[i]), lo, h);
      assert v.Node? || nb >= SIZE_LIMIT by {
        if t.Node? { assert t.size in Sizes(t); }
      }
      Concluded(b.tree, b.treemap, nb, i, i, v, rsize, Sizes(b.tree[i]));
      if v.Node? { OwnBin(b.tree, b.treemap, i, v.size); }
    }
  }

  /** The lowest bin in use holds the smallest sizes. */
  lemma LowestEnough(tree: seq<Trie>, treemap: set<nat>, nb: nat, i: nat, v: Trie, rsize: nat)
    requires BinsOk(tree, treemap) && i == NextMarked(treemap, 0) && i < NTREEBINS
    requires Best(v, rsize, nb, Sizes(tree[i])) && v.Node?
    ensures Best(v, rsize, nb, AllSizes(tree))
  {
    forall s | s in AllSizes(tree) ensures v.size <= s || s < nb {
      LowestBelow(tree, treemap, i, v.size, s);
    }
  }

  lemma LowestBelow(tree: seq<Trie>, treemap: set<nat>, i: nat, x: nat, s: nat)
    requires BinsOk(tree, treemap) && i == NextMarked(treemap, 0) && i < NTREEBINS
    requires x in Sizes(tree[i]) && s in AllSizes(tree)
    ensures s in Sizes(tree[i]) || x < s
  {
    var j :| 0 <= j < |tree| && s in Sizes(tree[j]);
    assert j in treemap;
    if j != i {
      assert BinOk(tree[i], i) && BinOk(tree[j], j);
      BinsOrdered(i, x, j, s);
    }
  }

  /** `tmalloc_small`, the search. */
  method FindSmallest(b: Bins, nb: nat) returns (v: Trie, rsize: nat)
    requires Ok(b) && 0 < nb < 256 && b.treemap != {}
    ensures v.Node? && Best(v, rsize, nb, AllSizes(b.tree))
    ensures v.chain != [] && v.chain == InTree(b.tree, v.size)
  {
    var i := NextMarked(b.treemap, 0);
    assert i < NTREEBINS by {
      var j :| j in b.treemap;
      assert 0 <= j < NTREEBINS;
    }
    BinFacts(b.tree, b.treemap, i, nb);
    var t := b.tree[i];
    ghost var lo, h := BinLow(i), BinBits(i);
    assert t.size in Sizes(t);
    TremMeans(t.size, nb);
    v, rsize := t, Trem(t.size, nb);
    WeighNode(Nil, WORD - nb, nb, Sizes(t), t, lo, h, v, rsize);
    Descend(t, t.left.Nil?, lo, h);
    v, rsize := LeastAlong(LeftmostChild(t), v, rsize, nb, Sizes(t), KidLow(t, t.left.Nil?, lo, h), KidBits(h));
    LowestEnough(b.tree, b.treemap, nb, i, v, rsize);
    OwnBin(b.tree, b.treemap, i, v.size);
  }
}
