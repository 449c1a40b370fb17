/** The records behind the trees of AvlTree.dfy and the routines that rewrite
    them in place (src/hvr_avl_tree.cpp).

    A pointer is an index into `mem`. Index 0 is the shared sentinel `nnil`,
    whose kids are itself and whose height is 0; the pool proper is
    `1..pool_size`; `NULL` ends the free list, which is threaded through `kid[0]`. */
module AvlPool {
  import opened AvlTree
  import opened Sets

  const NNIL: int := 0
  const NULL: int := -1

  datatype Rec = Rec(kid0: int, kid1: int, value: nat, key: Key, height: int)
  {
    function Kid(dir: int): int {
      if dir == 0 then kid0 else kid1
    }

    function WithKid(dir: int, p: int): Rec {
      if dir == 0 then this.(kid0 := p) else this.(kid1 := p)
    }
  }

  const SENTINEL := Rec(NNIL, NNIL, 0, 0, 0)

  /** In memory `m`, the record at `p` is the root of exactly the tree `t`. */
  predicate Holds(m: seq<Rec>, p: int, t: Tree)
    decreases t
  {
    match t
    case Nil => p == NNIL
    case Node(id, left, right, key, value, height) =>
      && p == id && 0 < id < |m|
      && m[id].key == key && m[id].value == value && m[id].height == height
      && Holds(m, m[id].kid0, left) && Holds(m, m[id].kid1, right)
  }

  /** The free list from `p` runs through exactly the records `f`. */
  predicate Chain(m: seq<Rec>, p: int, f: seq<nat>)
    decreases f
  {
    if f == [] then p == NULL
    else p == f[0] && 0 < f[0] < |m| && Chain(m, m[f[0]].kid0, f[1..])
  }

  /** `m'` differs from `m` at most on the records in `s`. */
  predicate SameOutside(m: seq<Rec>, m': seq<Rec>, s: set<nat>) {
    |m| == |m'| && forall i: nat :: i < |m| && i !in s ==> m[i] == m'[i]
  }

  lemma {:induction false} HoldsFrame(m: seq<Rec>, m': seq<Rec>, p: int, t: Tree, s: set<nat>)
    requires Holds(m, p, t) && SameOutside(m, m', s) && s !! Ids(t)
    ensures Holds(m', p, t)
    decreases t
  {
    if t.Node? {
      HoldsFrame(m, m', m[t.id].kid0, t.left, s);
      HoldsFrame(m, m', m[t.id].kid1, t.right, s);
    }
  }

  lemma {:induction false} ChainFrame(m: seq<Rec>, m': seq<Rec>, p: int, f: seq<nat>, s: set<nat>)
    requires Chain(m, p, f) && SameOutside(m, m', s) && (forall i <- f :: i !in s)
    ensures Chain(m', p, f)
    decreases f
  {
    if f != [] {
      assert f[0] in f;
      ChainFrame(m, m', m[f[0]].kid0, f[1..], s);
    }
  }

  /** The record at `p` carries the data of the root of `t`. */
  predicate Carries(m: seq<Rec>, p: int, t: Tree) {
    && t.Node? && p == t.id && 0 < p < |m|
    && m[p].key == t.key && m[p].value == t.value && m[p].height == t.height
  }

  lemma KidHeld(m: seq<Rec>, p: int, t: Tree, dir: int)
    requires Holds(m, p, t) && t.Node?
    requires dir == 0 || dir == 1
    ensures Carries(m, p, t) && Holds(m, m[p].Kid(dir), t.Kid(dir))
  {
  }

  /** While the records of one kid change, the node and the other kid stand. */
  lemma KidReplaced(m: seq<Rec>, m': seq<Rec>, p: int, t: Tree, dir: int, s: set<nat>)
    requires Holds(m, p, t) && t.Node? && (dir == 0 || dir == 1)
    requires SameOutside(m, m', s) && t.id !in s && s !! Ids(t.Kid(1 - dir))
    ensures Carries(m', p, t) && Holds(m', m'[p].Kid(1 - dir), t.Kid(1 - dir))
  {
    HoldsFrame(m, m', m[p].Kid(1 - dir), t.Kid(1 - dir), s);
  }

  /** Storing the pointer to a tree in a node's kid field. */
  lemma StoreKid(m: seq<Rec>, m': seq<Rec>, p: int, t: Tree, dir: int, q: int, kid: Tree)
    requires Carries(m, p, t) && (dir == 0 || dir == 1)
    requires Holds(m, m[p].Kid(1 - dir), t.Kid(1 - dir)) && t.id !in Ids(t.Kid(1 - dir))
    requires Holds(m, q, kid) && t.id !in Ids(kid)
    requires m' == m[p := m[p].WithKid(dir, q)]
    ensures Holds(m', p, t.WithKid(dir, kid))
  {
    HoldsFrame(m, m', q, kid, {t.id});
    HoldsFrame(m, m', m[p].Kid(1 - dir), t.Kid(1 - dir), {t.id});
  }

  /** A tree in memory only uses records of the pool. */
  lemma {:induction false} HoldsIds(m: seq<Rec>, p: int, t: Tree)
    requires Holds(m, p, t)
    ensures forall i <- Ids(t) :: 0 < i < |m|
    decreases t
  {
    if t.Node? {
      HoldsIds(m, m[t.id].kid0, t.left);
      HoldsIds(m, m[t.id].kid1, t.right);
    }
  }

  /** Two trees held at one pointer are one tree. */
  lemma {:induction false} HoldsUnique(m: seq<Rec>, p: int, t: Tree, u: Tree)
    requires Holds(m, p, t) && Holds(m, p, u)
    ensures t == u
    decreases t
  {
    if t.Node? {
      HoldsUnique(m, m[t.id].kid0, t.left, u.left);
      HoldsUnique(m, m[t.id].kid1, t.right, u.right);
    }
  }

  /** `Exhausted`: the pool is empty and the source aborts. */
  datatype InsertResult = Exhausted | Done(root: int, inserted: bool)

  class NodeAllocator {
    const mem: array<Rec>
    const pool_size: nat
    var head: int
    var n_reserved: nat
    /** The records on the free list, first to be handed out first. */
    ghost var free: seq<nat>

    ghost predicate Valid()
      reads this, mem
    {
      && mem.Length == pool_size + 1
      && mem[0] == SENTINEL
      && Chain(mem[..], head, free) && NoRepeats(free)
      && n_reserved + |free| == pool_size
    }

    /** `t` is a tree of this pool rooted at `root`, clear of the free list. */
    ghost predicate Owns(root: int, t: Tree)
      reads this, mem
    {
      && Valid() && Holds(mem[..], root, t) && Distinct(t)
      && forall i <- free :: i !in Ids(t)
    }

    constructor (size: nat)
      requires size > 0
      ensures Valid() && fresh(mem) && pool_size == size
      ensures n_reserved == 0 && free == Ascending(size)
    {
      pool_size := size;
      mem := new Rec[size + 1](i => SENTINEL);
      head := 1;
      n_reserved := 0;
      new;
      var i := 1;
      while i < size
        invariant 1 <= i <= size
        invariant head == 1 && n_reserved == 0 && mem[0] == SENTINEL
        invariant forall j :: 1 <= j < i ==> mem[j].kid0 == j + 1
      {
        mem[i] := mem[i].(kid0 := i + 1);
        i := i + 1;
      }
      mem[size] := mem[size].(kid0 := NULL);
      free := Ascending(size);
      InitialChain(mem[..], 1);
    }

    /** `hvr_avl_node_allocator_alloc` on a non-empty pool. */
    method Alloc() returns (p: int)
      requires Valid() && free != []
      modifies this
      ensures Valid() && p == old(free)[0] && free == old(free)[1..]
      ensures 0 < p <= pool_size && p !in free
    {
      p := head;
      head := mem[p].kid0;
      n_reserved := n_reserved + 1;
      free := free[1..];
    }

    method Free(p: nat)
      requires Valid() && 0 < p <= pool_size && p !in free
      modifies this, mem
      ensures Valid() && free == [p] + old(free)
      ensures Elements(free) == {p} + Elements(old(free))
      ensures SameOutside(old(mem[..]), mem[..], {p})
      ensures n_reserved == old(n_reserved) - 1
    {
      ghost var m := mem[..];
      FreeIsShort(m, head, free, p);
      mem[p] := mem[p].(kid0 := head);
      head := p;
      n_reserved := n_reserved - 1;
      ChainFrame(m, mem[..], mem[p].kid0, free, {p});
      free := [p] + free;
    }

    /** `set_height` */
    method SetHeight(n: nat, ghost t: Tree)
      requires Owns(n, t) && t.Node?
      modifies mem
      ensures Owns(n, t.SetHeight())
      ensures SameOutside(old(mem[..]), mem[..], {t.id})
    {
      ghost var m := mem[..];
      var rec := mem[n];
      HoldsHeight(m, rec.kid0, t.left);
      HoldsHeight(m, rec.kid1, t.right);
      mem[n] := rec.(height := 1 + Max(mem[rec.kid0].height, mem[rec.kid1].height));
      HoldsFrame(m, mem[..], rec.kid0, t.left, {t.id});
      HoldsFrame(m, mem[..], rec.kid1, t.right, {t.id});
      ChainFrame(m, mem[..], head, free, {t.id});
    }

    /** `rotate`: the kid in direction `dir` comes up; with no such kid the node
        itself goes back to the pool. */
    method Rotate(root: nat, dir: int, ghost t: Tree) returns (up: int)
      requires dir == 0 || dir == 1
      requires Owns(root, t) && t.Node?
      modifies this, mem
      ensures Owns(up, AvlTree.Rotate(t, dir))
      ensures SameOutside(old(mem[..]), mem[..], Ids(t))
      ensures if t.Kid(dir).Node?
        then free == old(free) && n_reserved == old(n_reserved)
        else free == [t.id] + old(free) && n_reserved == old(n_reserved) - 1
    {
      ghost var m := mem[..];
      ghost var u := t.Kid(dir);
      KidHeld(m, root, t, dir);
      up := mem[root].Kid(dir);
      if up == NNIL {
        HoldsIds(m, root, t);
        Free(root);
      } else {
        assert Distinct(u);
        KidHeld(m, root, t, 1 - dir);
        KidHeld(m, up, u, 1 - dir);
        var inner := mem[up].Kid(1 - dir);
        mem[root] := mem[root].WithKid(dir, inner);
        ghost var down := t.WithKid(dir, u.Kid(1 - dir));
        StoreKid(m, mem[..], root, t, dir, inner, u.Kid(1 - dir));
        ChainFrame(m, mem[..], head, free, {t.id});
        WithKidRecords(t, dir, u.Kid(1 - dir));
        SetHeight(root, down);
        ghost var m2 := mem[..];
        KidHeld(m, up, u, dir);
        HoldsFrame(m, m2, m[up].Kid(dir), u.Kid(dir), {t.id});
        mem[up] := mem[up].WithKid(1 - dir, root);
        StoreKid(m2, mem[..], up, u, 1 - dir, root, down.SetHeight());
        ChainFrame(m2, mem[..], head, free, {u.id});
        RotateKeepsRecords(t, dir);
      }
    }

    lemma KidOwned(root: nat, t: Tree, dir: int)
      requires Owns(root, t) && t.Node? && (dir == 0 || dir == 1)
      ensures root < mem.Length && Owns(mem[root].Kid(dir), t.Kid(dir))
      ensures Carries(mem[..], root, t)
    {
      KidHeld(mem[..], root, t, dir);
    }

    /** `root->kid[dir] = q` */
    method SetKid(root: nat, dir: int, q: int, ghost t: Tree, ghost kid: Tree)
      requires dir == 0 || dir == 1
      requires root < mem.Length && Carries(mem[..], root, t)
      requires Holds(mem[..], mem[root].Kid(1 - dir), t.Kid(1 - dir))
      requires Owns(q, kid) && Distinct(t.WithKid(dir, kid))
      requires forall i <- free :: i !in Ids(t.WithKid(dir, kid))
      modifies mem
      ensures Owns(root, t.WithKid(dir, kid))
      ensures SameOutside(old(mem[..]), mem[..], {root})
    {
      ghost var m := mem[..];
      assert t.id !in Ids(kid) && t.id !in Ids(t.Kid(1 - dir)) by {
        assert Distinct(t.WithKid(dir, kid));
      }
      assert root !in free by { assert root in Ids(t.WithKid(dir, kid)); }
      mem[root] := mem[root].WithKid(dir, q);
      StoreKid(m, mem[..], root, t, dir, q, kid);
      ChainFrame(m, mem[..], head, free, {root});
    }

    /** `balance` */
    method Balance(n: int, ghost t: Tree) returns (b: int)
      requires Owns(n, t)
      ensures b == t.Balance()
    {
      HoldsHeight(mem[..], n, t);
      if t.Node? {
        KidOwned(n, t, 0);
        KidOwned(n, t, 1);
        HoldsHeight(mem[..], mem[n].kid0, t.left);
        HoldsHeight(mem[..], mem[n].kid1, t.right);
      }
      b := mem[mem[n].kid0].height - mem[mem[n].kid1].height;
    }

    /** The first half of `adjust_balance`. */
    method Straighten(root: nat, dir: int, b: int, ghost t: Tree)
      requires dir == 0 || dir == 1
      requires b == 1 - 2 * dir
      requires Owns(root, t) && t.Node? && Balanced(t.Kid(dir))
      modifies this, mem
      ensures Owns(root, AvlTree.Straighten(t, dir, b))
      ensures free == old(free) && n_reserved == old(n_reserved)
      ensures SameOutside(old(mem[..]), mem[..], Ids(t))
    {
      ghost var m := mem[..];
      KidOwned(root, t, dir);
      KidOwned(root, t, 1 - dir);
      ghost var kid := t.Kid(dir);
      var lean := Balance(mem[root].Kid(dir), kid);
      if lean == -b {
        LeaningKid(kid, dir, b);
        RotateKeepsRecords(kid, 1 - dir);
        var c := Rotate(mem[root].Kid(dir), 1 - dir, kid);
        HoldsFrame(m, mem[..], m[root].Kid(1 - dir), t.Kid(1 - dir), Ids(kid));
        WithKidRecords(t, dir, AvlTree.Rotate(kid, 1 - dir));
        SetKid(root, dir, c, t, AvlTree.Rotate(kid, 1 - dir));
      }
    }

    /** `adjust_balance` */
    method AdjustBalance(root: nat, ghost t: Tree) returns (up: int)
      requires Owns(root, t) && Adjustable(t)
      modifies this, mem
      ensures Owns(up, Adjust(t))
      ensures free == old(free) && n_reserved == old(n_reserved)
      ensures SameOutside(old(mem[..]), mem[..], Ids(t))
    {
      var b := Balance(root, t);
      b := TruncHalf(b);
      if b != 0 {
        var dir := TruncHalf(1 - b);
        StraightenKeepsKid(t, dir, b);
        StraightenKeepsRecords(t, dir, b);
        Straighten(root, dir, b, t);
        up := RotateUp(root, dir, AvlTree.Straighten(t, dir, b));
      } else {
        up := root;
        if up != NNIL { SetHeight(up, t); }
      }
    }

    method RotateUp(root: nat, dir: int, ghost s: Tree) returns (up: int)
      requires Owns(root, s) && s.Node? && (dir == 0 || dir == 1) && s.Kid(dir).Node?
      modifies this, mem
      ensures Owns(up, AvlTree.Rotate(s, dir).SetHeight())
      ensures free == old(free) && n_reserved == old(n_reserved)
      ensures SameOutside(old(mem[..]), mem[..], Ids(s))
    {
      RotateKeepsRecords(s, dir);
      up := Rotate(root, dir, s);
      if up != NNIL { SetHeight(up, AvlTree.Rotate(s, dir)); }
    }

    /** The tail of both recursions: store the new kid, then rebalance. */
    method Reattach(root: nat, dir: int, q: int, ghost t: Tree, ghost kid: Tree) returns (up: int)
      requires dir == 0 || dir == 1
      requires root < mem.Length && Carries(mem[..], root, t)
      requires Holds(mem[..], mem[root].Kid(1 - dir), t.Kid(1 - dir))
      requires Owns(q, kid)
      requires Distinct(t.WithKid(dir, kid)) && Adjustable(t.WithKid(dir, kid))
      requires forall i <- free :: i !in Ids(t.WithKid(dir, kid))
      modifies this, mem
      ensures Owns(up, Adjust(t.WithKid(dir, kid)))
      ensures free == old(free) && n_reserved == old(n_reserved)
      ensures SameOutside(old(mem[..]), mem[..], Ids(t.WithKid(dir, kid)))
    {
      SetKid(root, dir, q, t, kid);
      up := AdjustBalance(root, t.WithKid(dir, kid));
    }

    /** `hvr_avl_insert` */
    method Insert(root: int, key: Key, value: nat, ghost t: Tree) returns (r: InsertResult)
      requires Owns(root, t) && Balanced(t)
      modifies this, mem
      decreases t, 1
      ensures r.Exhausted? <==> Lookup(t, key).Absent? && old(free) == []
      ensures r.Exhausted? ==> Owns(root, t) && mem[..] == old(mem[..]) && free == []
      ensures r.Done? ==>
        && r.inserted == Lookup(t, key).Absent?
        && Owns(r.root, AvlTree.Insert(t, key, value, Spare(old(free))))
        && free == (if r.inserted then old(free)[1..] else old(free))
        && SameOutside(old(mem[..]), mem[..], Ids(t) + Elements(old(free)))
    {
      HoldsHeight(mem[..], root, t);
      if root == NNIL {
        if head == NULL {
          return Exhausted;
        }
        var p := Alloc();
        ghost var m := mem[..];
        mem[p] := Rec(NNIL, NNIL, value, key, 1);
        ChainFrame(m, mem[..], head, free, {p});
        r := Done(p, true);
      } else if key != mem[root].key {
        r := InsertBelow(root, key, value, t);
      } else {
        r := Done(root, false);
      }
    }

    /** The recursive half of `hvr_avl_insert`. */
    method InsertBelow(root: int, key: Key, value: nat, ghost t: Tree) returns (r: InsertResult)
      requires Owns(root, t) && Balanced(t) && t.Node? && key != t.key
      modifies this, mem
      decreases t, 0
      ensures r.Exhausted? <==> Lookup(t, key).Absent? && old(free) == []
      ensures r.Exhausted? ==> Owns(root, t) && mem[..] == old(mem[..]) && free == []
      ensures r.Done? ==>
        && r.inserted == Lookup(t, key).Absent?
        && Owns(r.root, AvlTree.Insert(t, key, value, Spare(old(free))))
        && free == (if r.inserted then old(free)[1..] else old(free))
        && SameOutside(old(mem[..]), mem[..], Ids(t) + Elements(old(free)))
    {
      ghost var m := mem[..];
      KidHeld(m, root, t, 0);
      var dir := Side(key, mem[root].key);
      ghost var kid, spare := t.Kid(dir), Spare(free);
      KidOwned(root, t, dir);
      assert Distinct(t);
      r := Insert(mem[root].Kid(dir), key, value, kid);
      if r.Exhausted? {
        return;
      }
      ghost var kid' := AvlTree.Insert(kid, key, value, spare);
      InsertedKid(t, key, value, old(free));
      KidReplaced(m, mem[..], root, t, dir, Ids(kid) + Elements(old(free)));
      var up := Reattach(root, dir, r.root, t, kid');
      r := Done(up, r.inserted);
    }

    /** `hvr_avl_delete` */
    method Delete(root: int, key: Key, ghost t: Tree, ghost lo: int, ghost hi: int)
      returns (up: int, success: bool)
      requires Owns(root, t) && Deletable(t, key) && Ordered(t, lo, hi)
      modifies this, mem
      decreases Size(t), 1
      ensures success == Lookup(t, key).Present?
      ensures Owns(up, AvlTree.Delete(t, key))
      ensures free == (if success then [Lookup(t, key).id] + old(free) else old(free))
      ensures SameOutside(old(mem[..]), mem[..], Ids(t))
    {
      HoldsHeight(mem[..], root, t);
      if root == NNIL {
        return NNIL, false;
      }
      var cur := root;
      if mem[root].key == key {
        var b := Balance(root, t);
        cur := Rotate(root, if b < 0 then 1 else 0, t);
        if cur == NNIL {
          RotatedOffIsLeaf(t, key);
          return NNIL, true;
        }
      }
      DeleteStep(t, key, lo, hi);
      up, success := DeleteBelow(cur, key, Sunk(t, key), lo, hi);
    }

    /** The recursive half of `hvr_avl_delete`, past the node it stands on. */
    method DeleteBelow(cur: int, key: Key, ghost t: Tree, ghost lo: int, ghost hi: int)
      returns (up: int, success: bool)
      requires Owns(cur, t) && Passes(t, key, lo, hi)
      modifies this, mem
      decreases Size(t), 0
      ensures success == Lookup(t, key).Present?
      ensures Owns(up, Adjust(t.WithKid(Side(key, t.key), AvlTree.Delete(t.Kid(Side(key, t.key)), key))))
      ensures free == (if success then [Lookup(t, key).id] + old(free) else old(free))
      ensures SameOutside(old(mem[..]), mem[..], Ids(t))
    {
      ghost var m := mem[..];
      KidHeld(m, cur, t, 0);
      var dir := Side(key, mem[cur].key);
      ghost var kid := t.Kid(dir);
      KidOwned(cur, t, dir);
      DeletedKid(t, key, lo, hi, free);
      var c;
      c, success := Delete(mem[cur].Kid(dir), key, kid, KidLo(t, dir, lo), KidHi(t, dir, hi));
      KidReplaced(m, mem[..], cur, t, dir, Ids(kid));
      up := Reattach(cur, dir, c, t, AvlTree.Delete(kid, key));
    }

    /** `hvr_avl_delete_all`: every record of the tree goes back to the pool. */
    method DeleteAll(root: int, ghost t: Tree)
      requires Owns(root, t)
      modifies this, mem
      decreases t
      ensures Valid() && n_reserved == old(n_reserved) - Size(t)
      ensures forall i :: i in free <==> i in old(free) || i in Ids(t)
      ensures SameOutside(old(mem[..]), mem[..], Ids(t))
    {
      HoldsHeight(mem[..], root, t);
      if root == NNIL {
        return;
      }
      ghost var m, f := mem[..], free;
      HoldsIds(m, root, t);
      KidOwned(root, t, 0);
      DeleteAll(mem[root].kid0, t.left);
      ghost var m1 := mem[..];
      KidReplaced(m, m1, root, t, 0, Ids(t.left));
      assert Owns(mem[root].kid1, t.right);
      DeleteAll(mem[root].kid1, t.right);
      ghost var m2 := mem[..];
      assert SameOutside(m, m2, Ids(t));
      assert root !in free;
      Free(root);
      assert SameOutside(m2, mem[..], {t.id});
    }

    /** `hvr_avl_find`: the record that holds the key, or the sentinel. */
    method Find(root: int, key: Key, ghost t: Tree) returns (p: int)
      requires Owns(root, t)
      ensures p == match Lookup(t, key) case Absent => NNIL case Present(id, _) => id
      ensures p == NNIL <==> Lookup(t, key).Absent?
      ensures p != NNIL ==> 0 < p < mem.Length && mem[p].value == Lookup(t, key).value
    {
      HoldsIds(mem[..], root, t);
      if Lookup(t, key).Present? { LookupIds(t, key); }
      p := root;
      ghost var u := t;
      HoldsHeight(mem[..], p, u);
      while p != NNIL && mem[p].key != key
        invariant Owns(p, u) && 0 <= p < mem.Length
        invariant Lookup(u, key) == Lookup(t, key)
        decreases u
      {
        var dir := Side(key, mem[p].key);
        KidOwned(p, u, dir);
        p := mem[p].Kid(dir);
        u := u.Kid(dir);
        HoldsHeight(mem[..], p, u);
      }
    }

    /** `found->value = value` */
    method Store(root: int, p: int, key: Key, value: nat, ghost t: Tree)
      requires Owns(root, t) && Lookup(t, key).Present? && p == Lookup(t, key).id
      requires 0 <= p < mem.Length
      modifies mem
      ensures Owns(root, Assign(t, key, value))
      ensures SameOutside(old(mem[..]), mem[..], {Lookup(t, key).id})
    {
      ghost var m := mem[..];
      LookupIds(t, key);
      HoldsIds(m, root, t);
      mem[p] := mem[p].(value := value);
      StoreHolds(m, mem[..], root, t, key, value);
      ChainFrame(m, mem[..], head, free, {p});
    }

    /** `hvr_avl_size` */
    method CountNodes(root: int, ghost t: Tree) returns (n: nat)
      requires Owns(root, t)
      decreases t
      ensures n == Size(t)
    {
      if root == NNIL {
        return 0;
      }
      KidOwned(root, t, 0);
      KidOwned(root, t, 1);
      var l := CountNodes(mem[root].kid0, t.left);
      var r := CountNodes(mem[root].kid1, t.right);
      n := 1 + l + r;
    }

    /** `hvr_avl_serialize_helper`; the buffer must have room for the whole tree. */
    method Serialize(root: int, values: array<nat>, index: nat, ghost t: Tree) returns (next: nat)
      requires Owns(root, t)
      requires index + Size(t) <= values.Length
      modifies values
      decreases t
      ensures next == index + Size(t)
      ensures values[..] == Written(old(values[..]), index, t)
    {
      next := index;
      HoldsHeight(mem[..], root, t);
      if root == NNIL {
        return;
      }
      KidOwned(root, t, 0);
      KidOwned(root, t, 1);
      values[next] := mem[root].value;
      next := Serialize(mem[root].kid0, values, next + 1, t.left);
      next := Serialize(mem[root].kid1, values, next, t.right);
    }
  }

  /** The buffer after a tree has been serialised into it from `index` on. */
  function Written(buf: seq<nat>, index: nat, t: Tree): (r: seq<nat>)
    requires index + Size(t) <= |buf|
    ensures |r| == |buf|
    decreases t
  {
    if t.Nil? then buf
    else Written(Written(buf[index := t.value], index + 1, t.left), index + 1 + Size(t.left), t.right)
  }

  /** Serialising writes nothing outside its stretch of the buffer. */
  lemma {:induction false} WrittenOutside(buf: seq<nat>, index: nat, t: Tree, i: nat)
    requires index + Size(t) <= |buf| && i < |buf|
    requires !(index <= i < index + Size(t))
    ensures Written(buf, index, t)[i] == buf[i]
    decreases t
  {
    if t.Node? {
      var buf1 := buf[index := t.value];
      WrittenOutside(buf1, index + 1, t.left, i);
      WrittenOutside(Written(buf1, index + 1, t.left), index + 1 + Size(t.left), t.right, i);
    }
  }

  /** Serialising writes the values of the tree in preorder. */
  lemma {:induction false} WrittenIsPreorder(buf: seq<nat>, index: nat, t: Tree, i: nat)
    requires index + Size(t) <= |buf| && i < Size(t)
    ensures Written(buf, index, t)[index + i] == Preorder(t)[i].value
    decreases t
  {
    var buf1 := buf[index := t.value];
    var buf2 := Written(buf1, index + 1, t.left);
    var mid := index + 1 + Size(t.left);
    if i <= Size(t.left) {
      WrittenOutside(buf2, mid, t.right, index + i);
      if i == 0 {
        WrittenOutside(buf1, index + 1, t.left, index);
      } else {
        WrittenIsPreorder(buf1, index + 1, t.left, i - 1);
      }
    } else {
      WrittenIsPreorder(buf2, mid, t.right, i - 1 - Size(t.left));
    }
  }

  lemma {:induction false} LookupIds(t: Tree, key: Key)
    requires Lookup(t, key).Present?
    ensures Lookup(t, key).id in Ids(t)
  {
    if t.key != key { LookupIds(t.Kid(Side(key, t.key)), key); }
  }

  lemma {:induction false} StoreHolds(m: seq<Rec>, m': seq<Rec>, p: int, t: Tree, key: Key, value: nat)
    requires Holds(m, p, t) && Distinct(t) && Lookup(t, key).Present?
    requires var id := Lookup(t, key).id;
      id < |m| && m' == m[id := m[id].(value := value)]
    ensures Holds(m', p, Assign(t, key, value)) && Ids(Assign(t, key, value)) == Ids(t)
    ensures Distinct(Assign(t, key, value))
    decreases t
  {
    var id := Lookup(t, key).id;
    if t.key == key {
      HoldsFrame(m, m', m[p].kid0, t.left, {id});
      HoldsFrame(m, m', m[p].kid1, t.right, {id});
    } else {
      var dir := Side(key, t.key);
      KidHeld(m, p, t, dir);
      KidHeld(m, p, t, 1 - dir);
      LookupIds(t.Kid(dir), key);
      StoreHolds(m, m', m[p].Kid(dir), t.Kid(dir), key, value);
      HoldsFrame(m, m', m[p].Kid(1 - dir), t.Kid(1 - dir), {id});
      WithKidRecords(t, dir, Assign(t.Kid(dir), key, value));
    }
  }

  lemma DeletedKid(t: Tree, key: Key, lo: int, hi: int, f: seq<nat>)
    requires Passes(t, key, lo, hi) && Distinct(t)
    requires forall i <- f :: i !in Ids(t)
    ensures var dir := Side(key, t.key);
      var w := t.WithKid(dir, AvlTree.Delete(t.Kid(dir), key));
      && Distinct(w) && Ids(w) <= Ids(t)
      && t.id !in Ids(t.Kid(dir)) && Ids(t.Kid(dir)) !! Ids(t.Kid(1 - dir))
      && forall i <- (if Lookup(t, key).Present? then [Lookup(t, key).id] + f else f) :: i !in Ids(w)
  {
    var dir := Side(key, t.key);
    DeleteKeepsRecords(t.Kid(dir), key, KidLo(t, dir, lo), KidHi(t, dir, hi));
    WithKidRecords(t, dir, AvlTree.Delete(t.Kid(dir), key));
  }

  /** The record the next allocation will hand out. */
  function Spare(f: seq<nat>): nat {
    if f == [] then 0 else f[0]
  }

  lemma InsertedKid(t: Tree, key: Key, value: nat, f: seq<nat>)
    requires t.Node? && key != t.key && Balanced(t) && Distinct(t)
    requires NoRepeats(f) && forall i <- f :: i !in Ids(t)
    requires f == [] ==> Lookup(t, key).Present?
    ensures var dir := Side(key, t.key);
      var kid' := AvlTree.Insert(t.Kid(dir), key, value, Spare(f));
      var w := t.WithKid(dir, kid');
      && Distinct(w) && Adjustable(w)
      && Ids(w) <= Ids(t) + Elements(f)
      && forall i <- (if Lookup(t, key).Absent? then f[1..] else f) :: i !in Ids(w)
  {
    var dir := Side(key, t.key);
    var kid := t.Kid(dir);
    if Lookup(kid, key).Absent? {
      assert f[0] in f;
      InsertKeepsRecords(kid, key, value, Spare(f));
    } else {
      InsertPresent(kid, key, value, Spare(f));
    }
    InsertBalances(kid, key, value, Spare(f));
    HeightNonNegative(kid);
    WithKidRecords(t, dir, AvlTree.Insert(kid, key, value, Spare(f)));
  }

  function Ascending(n: nat): (s: seq<nat>)
    ensures |s| == n && forall i :: 0 <= i < n ==> s[i] == i + 1
  {
    if n == 0 then [] else Ascending(n - 1) + [n]
  }

  lemma {:induction false} InitialChain(m: seq<Rec>, p: nat)
    requires 0 < p <= |m| && |m| > 1
    requires forall j :: 0 < j < |m| - 1 ==> m[j].kid0 == j + 1
    requires m[|m| - 1].kid0 == NULL
    ensures Chain(m, if p == |m| then NULL else p, Ascending(|m| - 1)[p - 1..])
    decreases |m| - p
  {
    if p < |m| {
      var f := Ascending(|m| - 1);
      assert f[p - 1..][1..] == f[p..];
      InitialChain(m, p + 1);
    }
  }

  function Range(n: nat): (s: set<nat>)
    ensures |s| == n && forall i :: i in s <==> 0 < i <= n
  {
    if n == 0 then {} else Range(n - 1) + {n}
  }

  lemma {:induction false} ChainIds(m: seq<Rec>, p: int, f: seq<nat>)
    requires Chain(m, p, f)
    ensures forall i <- f :: 0 < i < |m|
    decreases f
  {
    if f != [] {
      ChainIds(m, m[f[0]].kid0, f[1..]);
      assert forall i <- f :: i == f[0] || i in f[1..];
    }
  }

  /** While some record of the pool is in use, the free list is not the whole pool. */
  lemma FreeIsShort(m: seq<Rec>, p: int, f: seq<nat>, used: nat)
    requires Chain(m, p, f) && NoRepeats(f) && used !in f && 0 < used < |m|
    ensures |f| < |m| - 1
  {
    ChainIds(m, p, f);
    ElementsSize(f);
    var s := Elements(f) + {used};
    SubsetSize(s, Range(|m| - 1));
  }

  /** Reading `height` through any kid pointer, the sentinel's included. */
  lemma HoldsHeight(m: seq<Rec>, p: int, t: Tree)
    requires |m| > 0 && m[0] == SENTINEL && Holds(m, p, t)
    ensures 0 <= p < |m| && m[p].height == t.StoredHeight()
  {
  }
}
