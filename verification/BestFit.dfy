/** The best-fit search over the tree bins
    (src/dlmalloc/dlmalloc.c, `tmalloc_large` and `tmalloc_small`). */
module BestFit {
  import opened Bits
  import opened Trie
  import opened TreeBins

  /** No chunk of the segment is this large. */
  const SIZE_LIMIT: nat := 0x100_0000_0000

  predicate BinOk(t: Trie, i: nat) {
    && Fits(t, BinLow(i), BinBits(i))
    && forall s <- Sizes(t) :: Belongs(s, i) && 256 <= s < SIZE_LIMIT
  }

  ghost predicate BinsOk(bins: seq<Trie>, treemap: set<nat>) {
    && |bins| == NTREEBINS
    && (forall i :: 0 <= i < NTREEBINS ==> BinOk(bins[i], i))
    && (forall i :: i in treemap <==> 0 <= i < NTREEBINS && bins[i].Node?)
  }

  /** `chunksize(t) - nb` in `size_t`. */
  function Trem(size: nat, nb: nat): nat {
    (size + WORD - nb % WORD) % WORD
  }

  lemma TremMeans(size: nat, nb: nat)
    requires size < SIZE_LIMIT && nb < WORD
    ensures if size >= nb then Trem(size, nb) == size - nb else Trem(size, nb) >= WORD - nb
    ensures nb > 0 && size >= nb ==> Trem(size, nb) < WORD - nb
  {
    if size >= nb {
      DivUnique(size + WORD - nb, 1, size - nb, WORD);
    } else {
      DivUnique(size + WORD - nb, 0, size + WORD - nb, WORD);
    }
  }

  /** `leftmost_child` */
  function LeftmostChild(t: Trie): Trie {
    if t.Nil? then Nil else if t.left.Node? then t.left else t.right
  }

  /** The smallest size below a node other than its own lies under its leftmost child. */
  lemma LeftmostHasLeast(t: Trie, lo: nat, h: nat, s: nat)
    requires Fits(t, lo, h) && s in Sizes(t) && s != t.size
    ensures LeftmostChild(t).Node?
    ensures s in Sizes(LeftmostChild(t)) || forall x <- Sizes(LeftmostChild(t)) :: x < s
  {
    SizesInRange(t.left, lo, h - 1);
    SizesInRange(t.right, lo + Pow2(h - 1), h - 1);
  }

  /** `v` is the best fit among the given sizes, and `rsize` what it leaves over. */
  predicate Best(v: Trie, rsize: nat, nb: nat, sizes: set<nat>) {
    && (v.Nil? ==> rsize == WORD - nb && forall s <- sizes :: s < nb)
    && (v.Node? ==> v.size in sizes && v.size >= nb && rsize == v.size - nb
                    && forall s <- sizes :: s >= nb ==> v.size <= s)
  }

  /** `v` is a node of the trie, with the whole ring of its size. */
  predicate NodeOf(v: Trie, t: Trie, lo: nat, h: nat) {
    v.Node? && v.size in Sizes(t) && v.chain != [] && v.chain == Chain(t, v.size, lo, h)
  }

  /** Best so far: a size not yet settled is still below `t`, or some size below `t` beats it. */
  predicate BestButFor(v: Trie, rsize: nat, nb: nat, sizes: set<nat>, t: Trie) {
    && (v.Nil? ==> rsize == WORD - nb)
    && (v.Node? ==> v.size in sizes && v.size >= nb && rsize == v.size - nb)
    && forall s <- sizes :: s >= nb ==>
         || (v.Node? && v.size <= s)
         || s in Sizes(t)
         || (t.Node? && forall x <- Sizes(t) :: nb <= x < s)
  }

  /** What the second loop may assume of its subtree: it lies on one side of the
      request, or the fit is already exact. */
  predicate Sorted(t: Trie, v: Trie, rsize: nat, nb: nat) {
    || (forall s <- Sizes(t) :: s >= nb)
    || (forall s <- Sizes(t) :: s < nb)
    || (v.Node? && rsize == 0)
  }

  lemma WeighNode(v: Trie, rsize: nat, nb: nat, sizes: set<nat>, t: Trie, lo: nat, h: nat, v': Trie, rsize': nat)
    requires 0 < nb < WORD && t.Node? && Fits(t, lo, h) && t.size in sizes
    requires forall s <- sizes :: s < SIZE_LIMIT
    requires BestButFor(v, rsize, nb, sizes, t)
    requires if Trem(t.size, nb) < rsize then v' == t && rsize' == Trem(t.size, nb) else v' == v && rsize' == rsize
    requires Sorted(t, v, rsize, nb)
    ensures BestButFor(v', rsize', nb, sizes, LeftmostChild(t))
  {
    TremMeans(t.size, nb);
    assert t.size in Sizes(t);
    assert t.size >= nb ==> v'.Node? && v'.size <= t.size;
    assert v.Node? ==> v'.Node? && v'.size <= v.size;
    forall s | s in sizes && s >= nb
      ensures (v'.Node? && v'.size <= s) || s in Sizes(LeftmostChild(t))
        || (LeftmostChild(t).Node? && forall x <- Sizes(LeftmostChild(t)) :: nb <= x < s)
    {
      if s in Sizes(t) && s != t.size { LeftmostHasLeast(t, lo, h, s); }
    }
  }

  /** The range of the kid on one side. */
  function KidLow(t: Trie, right: bool, lo: nat, h: nat): nat {
    if right && h > 0 then lo + Pow2(h - 1) else lo
  }

  function KidBits(h: nat): nat {
    if h > 0 then h - 1 else 0
  }

  /** Going down one level: the kid fits its half, and holds its rings whole. */
  lemma Descend(t: Trie, right: bool, lo: nat, h: nat)
    requires t.Node? && Fits(t, lo, h)
    ensures var kid := if right then t.right else t.left;
      && Fits(kid, KidLow(t, right, lo, h), KidBits(h)) && Sizes(kid) <= Sizes(t)
      && forall s <- Sizes(kid) ::
           Chain(t, s, lo, h) == Chain(kid, s, KidLow(t, right, lo, h), KidBits(h))
  {
    if h > 0 {
      SizesInRange(t.left, lo, h - 1);
      SizesInRange(t.right, lo + Pow2(h - 1), h - 1);
    }
  }

  /** `while (t != 0)`: the smallest of a subtree, along its leftmost path,
      weighed against the best fit so far. */
  method LeastAlong(t0: Trie, v0: Trie, rsize0: nat, nb: nat, ghost sizes: set<nat>, ghost lo0: nat, ghost h0: nat)
    returns (v: Trie, rsize: nat)
    requires 0 < nb < WORD && Fits(t0, lo0, h0) && Sizes(t0) <= sizes
    requires BestButFor(v0, rsize0, nb, sizes, t0) && Sorted(t0, v0, rsize0, nb)
    requires forall s <- sizes :: s < SIZE_LIMIT
    ensures Best(v, rsize, nb, sizes)
    ensures v == v0 || NodeOf(v, t0, lo0, h0)
  {
    v, rsize := v0, rsize0;
    var t := t0;
    ghost var lo: nat, h: nat := lo0, h0;
    while t.Node?
      invariant Fits(t, lo, h) && Sizes(t) <= Sizes(t0)
      invariant forall s <- Sizes(t) :: Chain(t0, s, lo0, h0) == Chain(t, s, lo, h)
      invariant BestButFor(v, rsize, nb, sizes, t) && Sorted(t, v, rsize, nb)
      invariant v == v0 || NodeOf(v, t0, lo0, h0)
      decreases t
    {
      var trem := Trem(t.size, nb);
      ghost var v1, r1 := v, rsize;
      if trem < rsize {
        v, rsize := t, trem;
      }
      WeighNode(v1, r1, nb, sizes, t, lo, h, v, rsize);
      Descend(t, t.left.Nil?, lo, h);
      lo, h := KidLow(t, t.left.Nil?, lo, h), KidBits(h);
      t := LeftmostChild(t);
    }
  }

  // ----- the path of the request through its own bin -----

  /** What is known of the sizes off the path: they are too small, no better
      than the best so far, or no better than all of `rst`, the deepest right
      subtree passed by. */
  ghost predicate Settled(v: Trie, nb: nat, sizes: set<nat>, t: Trie, rst: Trie) {
    forall s <- sizes :: s >= nb ==>
      || (v.Node? && v.size <= s)
      || s in Sizes(t)
      || (rst.Node? && (s in Sizes(rst) || forall x <- Sizes(rst) :: nb <= x < s))
  }

  predicate Found(v: Trie, rsize: nat, nb: nat, sizes: set<nat>) {
    && (v.Nil? ==> rsize == WORD - nb)
    && (v.Node? ==> v.size in sizes && v.size >= nb && rsize == v.size - nb)
  }

  /** Everything in the subtree passed by is above the request and above the path. */
  predicate Passed(rst: Trie, nb: nat, t: Trie) {
    forall x <- Sizes(rst) :: x > nb && forall y <- Sizes(t) :: y < x
  }

  /** One step down the path keeps what is known. */
  lemma PathStep(v: Trie, nb: nat, sizes: set<nat>, t: Trie, rst: Trie, lo: nat, h: nat, t': Trie, rst': Trie)
    requires t.Node? && Fits(t, lo, h) && lo <= nb < lo + Pow2(h)
    requires Settled(v, nb, sizes, t, rst) && Passed(rst, nb, t)
    requires t.size >= nb ==> v.Node? && v.size <= t.size
    requires t' == if GoesRight(nb, lo, h) then t.right else t.left
    requires rst' == if t.right.Node? && t.right != t' then t.right else rst
    ensures Settled(v, nb, sizes, t', rst') && Passed(rst', nb, t')
  {
    if h == 0 {
      assert t'.Nil? && rst' == rst;
    } else {
      SizesInRange(t.left, lo, h - 1);
      SizesInRange(t.right, lo + Pow2(h - 1), h - 1);
      if GoesRight(nb, lo, h) || t.right.Nil? {
        assert rst' == rst && Sizes(t') <= Sizes(t);
      } else {
        assert t.right.size in Sizes(t.right) && t.right.size !in Sizes(t.left);
        assert rst' == t.right && (rst.Node? ==> rst.size in Sizes(rst));
        assert forall x <- Sizes(t.right) :: x in Sizes(t) && nb <= x;
      }
    }
  }

  /** A subtree of `root` with its range; it holds its rings whole. */
  ghost predicate SubOf(t: Trie, lo: nat, h: nat, root: Trie, lo0: nat, h0: nat) {
    && Fits(t, lo, h) && Sizes(t) <= Sizes(root)
    && forall s <- Sizes(t) :: Chain(root, s, lo0, h0) == Chain(t, s, lo, h)
  }

  lemma SubOfKid(t: Trie, right: bool, lo: nat, h: nat, root: Trie, lo0: nat, h0: nat)
    requires t.Node? && SubOf(t, lo, h, root, lo0, h0)
    ensures SubOf(if right then t.right else t.left, KidLow(t, right, lo, h), KidBits(h), root, lo0, h0)
  {
    Descend(t, right, lo, h);
  }

  /** The request, shifted to the level of the path, branches as its size does. */
  lemma Branch(nb: nat, lo: nat, h: nat, q: nat)
    requires 0 < h <= 64 && lo == q * Pow2(h) && lo <= nb < lo + Pow2(h)
    ensures TopBit(ShiftedLeft(nb, 64 - h)) == if GoesRight(nb, lo, h) then 1 else 0
  {
    TopBitOfShifted(nb, 64 - h);
    BitIsHalf(nb, q, h - 1);
  }

  /** The request's place in the range of the path, level by level. */
  predicate OnPath(nb: nat, lo: nat, h: nat, q: nat, sizebits: nat) {
    && h <= 64 && sizebits == ShiftedLeft(nb, 64 - h)
    && (nb < SIZE_LIMIT ==> lo == q * Pow2(h) && lo <= nb < lo + Pow2(h))
  }

  lemma OnPathKid(t: Trie, nb: nat, lo: nat, h: nat, q: nat, sizebits: nat) returns (q': nat)
    requires OnPath(nb, lo, h, q, sizebits) && h > 0
    ensures OnPath(nb, KidLow(t, TopBit(sizebits) == 1, lo, h), h - 1, q', ShiftLeft(sizebits))
    ensures nb < SIZE_LIMIT ==> (TopBit(sizebits) == 1) == GoesRight(nb, lo, h)
  {
    if nb < SIZE_LIMIT { Branch(nb, lo, h, q); }
    q' := 2 * q + TopBit(sizebits);
    assert 2 * q * Pow2(h - 1) == q * Pow2(h) by { MulAssoc(q, 2, Pow2(h - 1)); }
    MulDistrib(2 * q, TopBit(sizebits), Pow2(h - 1));
  }

  /** The walk with nothing to say of the path when the request is larger than any chunk. */
  ghost predicate Walked(v: Trie, rsize: nat, nb: nat, sizes: set<nat>, t: Trie, rst: Trie) {
    && Found(v, rsize, nb, sizes)
    && (nb < SIZE_LIMIT ==> Settled(v, nb, sizes, t, rst) && Passed(rst, nb, t))
  }

  lemma Weigh(v: Trie, rsize: nat, nb: nat, sizes: set<nat>, t: Trie, rst: Trie, v': Trie, rsize': nat)
    requires 256 <= nb < WORD && t.Node? && t.size in sizes && forall s <- sizes :: s < SIZE_LIMIT
    requires Walked(v, rsize, nb, sizes, t, rst)
    requires if Trem(t.size, nb) < rsize then v' == t && rsize' == Trem(t.size, nb) else v' == v && rsize' == rsize
    ensures Walked(v', rsize', nb, sizes, t, rst)
    ensures t.size >= nb ==> v'.Node? && v'.size <= t.size
    ensures Trem(t.size, nb) < rsize ==> t.size == nb + rsize'
  {
    TremMeans(t.size, nb);
  }

  /** At the end of the path only the subtree passed by is left. */
  lemma PathEnd(v: Trie, rsize: nat, nb: nat, sizes: set<nat>, rst: Trie)
    requires Walked(v, rsize, nb, sizes, Nil, rst)
    requires Sizes(rst) <= sizes && forall s <- sizes :: s < SIZE_LIMIT
    ensures BestButFor(v, rsize, nb, sizes, rst) && Sorted(rst, v, rsize, nb)
    ensures nb < SIZE_LIMIT ==> forall s <- Sizes(rst) :: s >= nb
  {
  }

  /** The exact fit and the subtree above it, or the path's best with `rst` still to search. */
  method WalkPath(root: Trie, idx: nat, nb: nat, ghost lo0: nat, ghost h0: nat)
    returns (t: Trie, v: Trie, rsize: nat, ghost lo: nat, ghost h: nat)
    requires 256 <= nb < WORD && idx < NTREEBINS && lo0 == BinLow(idx) && h0 == BinBits(idx)
    requires Fits(root, lo0, h0)
    requires nb < SIZE_LIMIT ==> lo0 <= nb < lo0 + Pow2(h0)
    requires forall s <- Sizes(root) :: s < SIZE_LIMIT
    ensures SubOf(t, lo, h, root, lo0, h0)
    ensures BestButFor(v, rsize, nb, Sizes(root), t) && Sorted(t, v, rsize, nb)
    ensures nb < SIZE_LIMIT && v.Nil? ==> forall s <- Sizes(t) :: s >= nb
    ensures v.Nil? || NodeOf(v, root, lo0, h0)
  {
    v, rsize, t := Nil, WORD - nb, root;
    lo, h := lo0, h0;
    if root.Nil? { return; }
    var sizebits := ShiftedLeft(nb, LeftShift(idx));
    var rst := Nil;
    ghost var rlo: nat, rh: nat := lo0, h0;
    ghost var q := BinLowMultiple(idx);
    while true
      invariant t.Node? && SubOf(t, lo, h, root, lo0, h0) && SubOf(rst, rlo, rh, root, lo0, h0)
      invariant OnPath(nb, lo, h, q, sizebits)
      invariant Walked(v, rsize, nb, Sizes(root), t, rst)
      invariant v.Nil? || NodeOf(v, root, lo0, h0)
      decreases t
    {
      var trem := Trem(t.size, nb);
      ghost var v1, r1 := v, rsize;
      if trem < rsize {
        v, rsize := t, trem;
        if rsize == 0 {
          Weigh(v1, r1, nb, Sizes(root), t, rst, v, rsize);
          return;
        }
      }
      Weigh(v1, r1, nb, Sizes(root), t, rst, v, rsize);
      ghost var t1, rst1 := t, rst;
      SubOfKid(t, true, lo, h, root, lo0, h0);
      SubOfKid(t, TopBit(sizebits) == 1, lo, h, root, lo0, h0);
      var rt := t.right;
      t := if TopBit(sizebits) == 1 then t.right else t.left;
      if rt.Node? && rt != t {
        rst := rt;
        rlo, rh := KidLow(t1, true, lo, h), KidBits(h);
      }
      if h > 0 { q := OnPathKid(t1, nb, lo, h, q, sizebits); }
      if nb < SIZE_LIMIT { PathStep(v, nb, Sizes(root), t1, rst1, lo, h, t, rst); }
      if t.Nil? {
        PathEnd(v, rsize, nb, Sizes(root), rst);
        t, lo, h := rst, rlo, rh;
        return;
      }
      lo, h := KidLow(t1, TopBit(sizebits) == 1, lo, h), KidBits(h);
      sizebits := ShiftLeft(sizebits);
    }
  }
}
