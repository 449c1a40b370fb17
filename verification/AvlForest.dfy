/** Many row trees over one node pool: what src/hvr_irregular_matrix.cpp and
    src/hvr_sparse_arr.cpp share. The rows and the free list must between them
    account for every record of the pool, each exactly once. */
module AvlForest {
  import opened AvlTree
  import opened AvlPool
  import opened Sets

  /** Row `i` is the tree `trees[i]`, rooted at `roots[i]`; no record is in two
      rows, or in a row and on the free list. */
  ghost predicate Forest(m: seq<Rec>, roots: seq<int>, trees: seq<Tree>, f: seq<nat>) {
    && |roots| == |trees|
    && (forall i :: 0 <= i < |trees| ==> Holds(m, roots[i], trees[i]) && AvlTree.Valid(trees[i]))
    && (forall i :: 0 <= i < |trees| ==> forall p <- f :: p !in Ids(trees[i]))
    && (forall i, j :: 0 <= i < j < |trees| ==> Ids(trees[i]) !! Ids(trees[j]))
  }

  function TotalSize(trees: seq<Tree>): nat {
    if trees == [] then 0 else TotalSize(trees[..|trees| - 1]) + Size(trees[|trees| - 1])
  }

  lemma {:induction false} TotalSizeUpdate(trees: seq<Tree>, i: nat, t: Tree)
    requires i < |trees|
    ensures TotalSize(trees[i := t]) == TotalSize(trees) - Size(trees[i]) + Size(t)
  {
    var n := |trees| - 1;
    var u := trees[i := t];
    if i == n {
      assert u[..n] == trees[..n];
    } else {
      assert u[..n] == trees[..n][i := t];
      TotalSizeUpdate(trees[..n], i, t);
    }
  }

  lemma RowFacts(m: seq<Rec>, roots: seq<int>, trees: seq<Tree>, f: seq<nat>, i: nat)
    requires Forest(m, roots, trees, f) && i < |trees|
    ensures AvlTree.Valid(trees[i]) && Holds(m, roots[i], trees[i])
    ensures forall p <- f :: p !in Ids(trees[i])
  {
  }

  lemma {:induction false} NoRows(trees: seq<Tree>)
    requires forall i :: 0 <= i < |trees| ==> trees[i] == Nil
    ensures TotalSize(trees) == 0
  {
    if trees != [] { NoRows(trees[..|trees| - 1]); }
  }

  /** One row is rebuilt from its own records and some off the free list. */
  lemma ReplaceRow(m: seq<Rec>, m': seq<Rec>, roots: seq<int>, trees: seq<Tree>, f: seq<nat>, f': seq<nat>,
                   i: nat, root: int, t: Tree)
    requires Forest(m, roots, trees, f) && i < |trees|
    requires SameOutside(m, m', Ids(trees[i]) + Elements(f))
    requires Holds(m', root, t) && AvlTree.Valid(t)
    requires Ids(t) <= Ids(trees[i]) + Elements(f)
    requires forall p <- f' :: p !in Ids(t) && (p in f || p in Ids(trees[i]))
    ensures Forest(m', roots[i := root], trees[i := t], f')
  {
    forall j | 0 <= j < |trees| && j != i
      ensures Holds(m', roots[j], trees[j]) && Ids(trees[j]) !! Ids(t)
      ensures forall p <- f' :: p !in Ids(trees[j])
    {
      assert Ids(trees[i]) !! Ids(trees[j]);
      HoldsFrame(m, m', roots[j], trees[j], Ids(trees[i]) + Elements(f));
    }
  }

  function AllIds(trees: seq<Tree>): set<nat> {
    if trees == [] then {} else AllIds(trees[..|trees| - 1]) + Ids(trees[|trees| - 1])
  }

  lemma {:induction false} IdsCount(t: Tree)
    requires Distinct(t)
    ensures |Ids(t)| == Size(t)
  {
    if t.Node? {
      IdsCount(t.left);
      IdsCount(t.right);
    }
  }

  lemma {:induction false} AllIdsMember(trees: seq<Tree>, p: nat)
    ensures p in AllIds(trees) <==> exists i :: 0 <= i < |trees| && p in Ids(trees[i])
  {
    if trees != [] {
      var n := |trees| - 1;
      AllIdsMember(trees[..n], p);
      if i :| 0 <= i < |trees| && p in Ids(trees[i]) {
        if i < n { assert trees[..n][i] == trees[i]; }
      }
    }
  }

  lemma {:induction false} AllIdsCount(m: seq<Rec>, roots: seq<int>, trees: seq<Tree>, f: seq<nat>)
    requires Forest(m, roots, trees, f)
    ensures |AllIds(trees)| == TotalSize(trees)
  {
    if trees != [] {
      var n := |trees| - 1;
      AllIdsCount(m, roots[..n], trees[..n], f);
      IdsCount(trees[n]);
      forall p <- AllIds(trees[..n]) ensures p !in Ids(trees[n]) {
        AllIdsMember(trees[..n], p);
        var i :| 0 <= i < n && p in Ids(trees[..n][i]);
        assert trees[..n][i] == trees[i];
      }
      assert AllIds(trees[..n]) !! Ids(trees[n]);
    }
  }

  /** When the counts agree the rows and the free list cover the pool: every
      record is on the free list or in exactly one row. */
  lemma PoolPartition(m: seq<Rec>, head: int, roots: seq<int>, trees: seq<Tree>, f: seq<nat>, p: nat)
    requires Forest(m, roots, trees, f) && Chain(m, head, f) && NoRepeats(f)
    requires TotalSize(trees) + |f| == |m| - 1
    requires 0 < p < |m|
    ensures p in f || exists i :: 0 <= i < |trees| && p in Ids(trees[i])
    ensures forall i :: 0 <= i < |trees| && p in Ids(trees[i]) ==>
      p !in f && forall j :: 0 <= j < |trees| && j != i ==> p !in Ids(trees[j])
  {
    AllIdsCount(m, roots, trees, f);
    AllIdsMember(trees, p);
    ChainIds(m, head, f);
    forall q <- AllIds(trees) ensures 0 < q < |m| && q !in f {
      AllIdsMember(trees, q);
      var i :| 0 <= i < |trees| && q in Ids(trees[i]);
      HoldsIds(m, roots[i], trees[i]);
    }
    CountsCover(AllIds(trees), f, |m| - 1, p);
  }

  lemma CountsCover(used: set<nat>, f: seq<nat>, n: nat, p: nat)
    requires NoRepeats(f) && |used| + |f| == n && 0 < p <= n
    requires (forall i <- used :: 0 < i <= n && i !in f) && forall i <- f :: 0 < i <= n
    ensures p in used || p in f
  {
    ElementsSize(f);
    assert used !! Elements(f);
    SubsetSize(used + Elements(f), Range(n));
    assert p in Range(n);
  }
}
