/** The tree bins of src/dlmalloc/dlmalloc.c: bitwise tries of free chunks keyed
    on chunk size, equal sizes chained off one node.

    A trie is a value here: `chain` lists the addresses of the chunks of one
    size in `fd` order, the tree node first. Sizes and addresses are bytes. */
module Trie {
  import opened Bits
  import opened Sets

  const NTREEBINS: nat := 32

  datatype Trie = Nil | Node(size: nat, chain: seq<nat>, left: Trie, right: Trie)

  function Sizes(t: Trie): set<nat> {
    if t.Nil? then {} else {t.size} + Sizes(t.left) + Sizes(t.right)
  }

  /** The sizes in a subtree agree on every bit from bit `h` up: they lie in
      the `Pow2(h)` wide range from `lo`. The left half of the range is in the left
      subtree and the right half in the right, but for the node's own size. */
  predicate Fits(t: Trie, lo: nat, h: nat) {
    t.Node? ==>
      && lo <= t.size < lo + Pow2(h) && t.chain != []
      && t.size !in Sizes(t.left) && t.size !in Sizes(t.right)
      && if h == 0 then t.left.Nil? && t.right.Nil?
         else Fits(t.left, lo, h - 1) && Fits(t.right, lo + Pow2(h - 1), h - 1)
  }

  /** The branch a size takes in a range. */
  predicate GoesRight(size: nat, lo: nat, h: nat) {
    h > 0 && size >= lo + Pow2(h - 1)
  }

  lemma {:induction false} SizesInRange(t: Trie, lo: nat, h: nat)
    requires Fits(t, lo, h)
    ensures forall s <- Sizes(t) :: lo <= s < lo + Pow2(h)
  {
    if t.Node? && h > 0 {
      SizesInRange(t.left, lo, h - 1);
      SizesInRange(t.right, lo + Pow2(h - 1), h - 1);
    }
  }

  // ----- operations -----

  /** The addresses binned under a size. */
  function Chain(t: Trie, size: nat, lo: nat, h: nat): seq<nat> {
    if t.Nil? then []
    else if t.size == size then t.chain
    else if h == 0 then []
    else if GoesRight(size, lo, h) then Chain(t.right, size, lo + Pow2(h - 1), h - 1)
    else Chain(t.left, size, lo, h - 1)
  }

  /** A chunk joins its size's ring right behind the tree node. */
  function Enchain(chain: seq<nat>, a: nat): seq<nat> {
    if chain == [] then [a] else [chain[0], a] + chain[1..]
  }

  /** `insert_large_chunk` */
  function Insert(t: Trie, size: nat, a: nat, lo: nat, h: nat): Trie {
    if t.Nil? then Node(size, [a], Nil, Nil)
    else if t.size == size then t.(chain := Enchain(t.chain, a))
    else if h == 0 then t
    else if GoesRight(size, lo, h) then t.(right := Insert(t.right, size, a, lo + Pow2(h - 1), h - 1))
    else t.(left := Insert(t.left, size, a, lo, h - 1))
  }

  /** A chunk leaves its ring. If it was the tree node, `X->bk`, the last of
      the ring, takes its place. */
  function Unchain(chain: seq<nat>, a: nat): seq<nat> {
    if |chain| <= 1 then []
    else if chain[0] == a then [chain[|chain| - 1]] + chain[1..|chain| - 1]
    else Without(chain, a)
  }

  /** The leaf that stands in for a removed inner node: right if possible, else
      left, down to a node without children. */
  function LastLeaf(t: Trie): Trie {
    if t.Nil? then Nil
    else if t.right.Node? then LastLeaf(t.right)
    else if t.left.Node? then LastLeaf(t.left)
    else t
  }

  function WithoutLastLeaf(t: Trie): Trie {
    if t.Nil? then Nil
    else if t.right.Node? then t.(right := WithoutLastLeaf(t.right))
    else if t.left.Node? then t.(left := WithoutLastLeaf(t.left))
    else Nil
  }

  /** The root gives way to the last leaf below it, if there is one. */
  function DropRoot(t: Trie): Trie {
    if t.Nil? then Nil
    else
      var rest, leaf := WithoutLastLeaf(t), LastLeaf(t);
      if rest.Nil? || leaf.Nil? then Nil else rest.(size := leaf.size, chain := leaf.chain)
  }

  /** `unlink_large_chunk` */
  function Unlink(t: Trie, size: nat, a: nat, lo: nat, h: nat): Trie {
    if t.Nil? then Nil
    else if t.size == size then
      if |t.chain| > 1 then t.(chain := Unchain(t.chain, a)) else DropRoot(t)
    else if h == 0 then t
    else if GoesRight(size, lo, h) then t.(right := Unlink(t.right, size, a, lo + Pow2(h - 1), h - 1))
    else t.(left := Unlink(t.left, size, a, lo, h - 1))
  }

  // ----- they keep the trie and change one ring -----

  lemma {:induction false} ChainSizes(t: Trie, size: nat, lo: nat, h: nat)
    requires Fits(t, lo, h)
    ensures Chain(t, size, lo, h) != [] <==> size in Sizes(t)
    decreases t
  {
    if t.Node? && t.size != size && h > 0 {
      SizesInRange(t.left, lo, h - 1);
      SizesInRange(t.right, lo + Pow2(h - 1), h - 1);
      if GoesRight(size, lo, h) {
        ChainSizes(t.right, size, lo + Pow2(h - 1), h - 1);
      } else {
        ChainSizes(t.left, size, lo, h - 1);
      }
    }
  }

  /** Inserting keeps the trie and extends exactly the ring of that size. */
  lemma {:induction false} InsertKeeps(t: Trie, size: nat, a: nat, lo: nat, h: nat)
    requires Fits(t, lo, h) && lo <= size < lo + Pow2(h)
    ensures Fits(Insert(t, size, a, lo, h), lo, h)
    ensures Sizes(Insert(t, size, a, lo, h)) == Sizes(t) + {size}
    ensures forall s ::
      (Chain(Insert(t, size, a, lo, h), s, lo, h)
       == if s == size then Enchain(Chain(t, s, lo, h), a) else Chain(t, s, lo, h))
    decreases t
  {
    if t.Node? && t.size != size {
      assert h > 0;
      if GoesRight(size, lo, h) {
        InsertKeeps(t.right, size, a, lo + Pow2(h - 1), h - 1);
      } else {
        InsertKeeps(t.left, size, a, lo, h - 1);
      }
    }
  }

  lemma {:induction false} LastLeafKeeps(t: Trie, lo: nat, h: nat)
    requires Fits(t, lo, h) && t.Node?
    ensures var leaf := LastLeaf(t);
      && leaf.Node? && leaf.size in Sizes(t) && leaf.chain != []
      && leaf.chain == Chain(t, leaf.size, lo, h)
      && (t.left.Node? || t.right.Node? ==> leaf.size != t.size)
    ensures Fits(WithoutLastLeaf(t), lo, h)
    ensures Sizes(WithoutLastLeaf(t)) == Sizes(t) - {LastLeaf(t).size}
    ensures forall s ::
      (Chain(WithoutLastLeaf(t), s, lo, h)
       == if s == LastLeaf(t).size then [] else Chain(t, s, lo, h))
    decreases t
  {
    if t.right.Node? {
      SizesInRange(t.left, lo, h - 1);
      SizesInRange(t.right, lo + Pow2(h - 1), h - 1);
      LastLeafKeeps(t.right, lo + Pow2(h - 1), h - 1);
    } else if t.left.Node? {
      SizesInRange(t.left, lo, h - 1);
      LastLeafKeeps(t.left, lo, h - 1);
    }
  }

  /** A lone root gives way to a leaf that belongs anywhere above it. */
  lemma DropRootKeeps(t: Trie, lo: nat, h: nat)
    requires Fits(t, lo, h) && t.Node?
    ensures Fits(DropRoot(t), lo, h)
    ensures Sizes(DropRoot(t)) == Sizes(t) - {t.size}
    ensures forall s ::
      (Chain(DropRoot(t), s, lo, h) == if s == t.size then [] else Chain(t, s, lo, h))
  {
    LastLeafKeeps(t, lo, h);
    var rest, leaf := WithoutLastLeaf(t), LastLeaf(t);
    if rest.Node? {
      assert h > 0;
      assert rest.size == t.size;
      assert Sizes(rest) == {t.size} + Sizes(rest.left) + Sizes(rest.right);
      assert Sizes(DropRoot(t)) == {leaf.size} + Sizes(rest.left) + Sizes(rest.right);
      assert t.size !in Sizes(rest.left) + Sizes(rest.right);
      assert Sizes(DropRoot(t)) == {leaf.size} + (Sizes(rest) - {t.size});
      SizesInRange(t.left, lo, h - 1);
      SizesInRange(t.right, lo + Pow2(h - 1), h - 1);
      forall s ensures Chain(DropRoot(t), s, lo, h) == if s == t.size then [] else Chain(t, s, lo, h) {
        assert s != t.size ==> Chain(rest, s, lo, h) == if s == leaf.size then [] else Chain(t, s, lo, h);
        if s == t.size {
          ChainSizes(DropRoot(t), s, lo, h);
        }
      }
    } else {
      assert t.left.Nil? && t.right.Nil?;
      assert Sizes(t) == {t.size} + Sizes(t.left) + Sizes(t.right);
    }
  }

  /** Unlinking keeps the trie and shortens exactly the ring of that size. */
  lemma {:induction false} UnlinkKeeps(t: Trie, size: nat, a: nat, lo: nat, h: nat)
    requires Fits(t, lo, h) && size in Sizes(t)
    ensures Fits(Unlink(t, size, a, lo, h), lo, h)
    ensures Sizes(Unlink(t, size, a, lo, h)) ==
      if |Chain(t, size, lo, h)| > 1 then Sizes(t) else Sizes(t) - {size}
    ensures forall s ::
      (Chain(Unlink(t, size, a, lo, h), s, lo, h)
       == if s == size then Unchain(Chain(t, s, lo, h), a) else Chain(t, s, lo, h))
    decreases t
  {
    UnchainNonEmpty(t.chain, a);
    if t.size == size {
      if |t.chain| <= 1 {
        DropRootKeeps(t, lo, h);
      } else {
        assert Unlink(t, size, a, lo, h) == t.(chain := Unchain(t.chain, a));
      }
    } else {
      SizesInRange(t.left, lo, h - 1);
      SizesInRange(t.right, lo + Pow2(h - 1), h - 1);
      if GoesRight(size, lo, h) {
        UnlinkKeeps(t.right, size, a, lo + Pow2(h - 1), h - 1);
      } else {
        UnlinkKeeps(t.left, size, a, lo, h - 1);
      }
    }
  }

  lemma UnchainNonEmpty(chain: seq<nat>, a: nat)
    ensures |chain| > 1 ==> Unchain(chain, a) != []
  {
    if |chain| > 1 && chain[0] != a { assert Without(chain, a)[0] == chain[0]; }
  }

  /** A chunk that joins a ring is on it once, and no other chunk comes or goes. */
  lemma EnchainMembers(chain: seq<nat>, a: nat)
    requires NoRepeats(chain) && a !in chain
    ensures NoRepeats(Enchain(chain, a))
    ensures forall x :: x in Enchain(chain, a) <==> x == a || x in chain
  {
    if chain != [] {
      assert chain == [chain[0]] + chain[1..];
      var r := Enchain(chain, a);
      assert forall i :: 2 <= i < |r| ==> r[i] == chain[i - 1];
    }
  }

  lemma LastToFront(chain: seq<nat>)
    requires NoRepeats(chain) && |chain| > 1
    ensures var r := [chain[|chain| - 1]] + chain[1..|chain| - 1];
      NoRepeats(r) && forall x :: x in r <==> x != chain[0] && x in chain
  {
    var n := |chain| - 1;
    var r := [chain[n]] + chain[1..n];
    assert forall i :: 0 < i < n ==> r[i] == chain[i];
    forall x ensures x in r <==> x != chain[0] && x in chain {
      if x in r {
        var i :| 0 <= i < |r| && r[i] == x;
        assert x == chain[if i == 0 then n else i];
      }
      if x != chain[0] && x in chain {
        var i :| 0 <= i < |chain| && chain[i] == x;
        assert r[if i == n then 0 else i] == x;
      }
    }
  }

  /** A chunk that leaves a ring is gone from it, and no other chunk is. */
  lemma UnchainMembers(chain: seq<nat>, a: nat)
    requires NoRepeats(chain) && a in chain
    ensures NoRepeats(Unchain(chain, a))
    ensures forall x :: x in Unchain(chain, a) <==> x != a && x in chain
  {
    if |chain| > 1 {
      if chain[0] == a { LastToFront(chain); } else { WithoutMembers(chain, a); }
    }
  }

  /** Inserting a chunk and unlinking it again leaves every ring with the same chunks. */
  lemma InsertThenUnlink(t: Trie, size: nat, a: nat, lo: nat, h: nat, s: nat)
    requires Fits(t, lo, h) && lo <= size < lo + Pow2(h)
    requires NoRepeats(Chain(t, size, lo, h)) && a !in Chain(t, size, lo, h)
    ensures var r := Unlink(Insert(t, size, a, lo, h), size, a, lo, h);
      && Fits(r, lo, h) && Sizes(r) == Sizes(t)
      && forall x :: x in Chain(r, s, lo, h) <==> x in Chain(t, s, lo, h)
  {
    InsertKeeps(t, size, a, lo, h);
    var t1 := Insert(t, size, a, lo, h);
    UnlinkKeeps(t1, size, a, lo, h);
    EnchainMembers(Chain(t, size, lo, h), a);
    UnchainMembers(Chain(t1, size, lo, h), a);
    ChainSizes(t, size, lo, h);
  }
}
