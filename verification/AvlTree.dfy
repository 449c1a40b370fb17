/** The AVL tree of src/hvr_avl_tree.cpp as a value.

    Every node carries the pool index `id` of the record it stands for, so the
    functions below say not only what a tree contains but which record holds
    it. `height` is the height stored in the record: that it is the true one
    is part of `Balanced`, not of the type. AvlPool.dfy proves that the
    in-place routines compute exactly these functions. */
module AvlTree {

  const KEY_LIMIT: nat := 0x1_0000_0000

  /** `uint32_t key`. */
  type Key = k: nat | k < KEY_LIMIT

  datatype Tree =
    | Nil
    | Node(id: nat, left: Tree, right: Tree, key: Key, value: nat, height: int)
  {
    /** `kid[dir]`; the nil sentinel is its own kid. */
    function Kid(dir: int): Tree {
      if Nil? then Nil else if dir == 0 then left else right
    }

    function WithKid(dir: int, t: Tree): Tree
      requires Node?
    {
      if dir == 0 then this.(left := t) else this.(right := t)
    }

    function StoredHeight(): int {
      if Nil? then 0 else height
    }

    function Balance(): int {
      Kid(0).StoredHeight() - Kid(1).StoredHeight()
    }

    function SetHeight(): Tree {
      if Nil? then Nil
      else this.(height := 1 + Max(left.StoredHeight(), right.StoredHeight()))
    }
  }

  /** What a lookup finds: the record that holds the key, and its value. */
  datatype Found = Absent | Present(id: nat, value: nat)

  function Max(a: int, b: int): int {
    if a > b then a else b
  }

  /** C's `x / 2`, which truncates toward zero. */
  function TruncHalf(x: int): int {
    if x >= 0 then x / 2 else -((-x) / 2)
  }

  // ----- the operations of the source -----

  /** `key > root->key`, used as an index into `kid`. */
  function Side(key: Key, at: Key): int {
    if key > at then 1 else 0
  }

  /** `rotate`. When the kid is nil the node itself leaves the tree. */
  function Rotate(t: Tree, dir: int): Tree {
    var up := t.Kid(dir);
    if up.Nil? then Nil
    else up.WithKid(1 - dir, t.WithKid(dir, up.Kid(1 - dir)).SetHeight())
  }

  /** `adjust_balance`: one truncated halving decides everything. */
  function Adjust(t: Tree): Tree {
    var b := TruncHalf(t.Balance());
    if b == 0 || t.Nil? then t.SetHeight()
    else
      var dir := TruncHalf(1 - b);
      Rotate(Straighten(t, dir, b), dir).SetHeight()
  }

  /** The first half of a rebalancing: turn a kid that leans the other way. */
  function Straighten(t: Tree, dir: int, b: int): Tree
    requires t.Node?
  {
    if t.Kid(dir).Balance() == -b then t.WithKid(dir, Rotate(t.Kid(dir), 1 - dir)) else t
  }

  function Insert(t: Tree, key: Key, value: nat, spare: nat): Tree {
    if t.Nil? then Node(spare, Nil, Nil, key, value, 1)
    else if key == t.key then t
    else
      var dir := Side(key, t.key);
      Adjust(t.WithKid(dir, Insert(t.Kid(dir), key, value, spare)))
  }

  /** The direction in which `hvr_avl_delete` rotates the node it wants. */
  function SinkDir(t: Tree): int {
    if t.Balance() < 0 then 1 else 0
  }

  /** The node whose kid the deletion descends into. */
  function Sunk(t: Tree, key: Key): Tree {
    if t.Node? && t.key == key then Rotate(t, SinkDir(t)) else t
  }

  function Delete(t: Tree, key: Key): Tree
    decreases Size(t)
  {
    if t.Nil? then Nil
    else
      var t1 := Sunk(t, key);
      SunkSize(t, key);
      if t1.Nil? then Nil
      else
        var dir := Side(key, t1.key);
        Adjust(t1.WithKid(dir, Delete(t1.Kid(dir), key)))
  }

  /** `hvr_avl_find` and `query`. */
  function Lookup(t: Tree, key: Key): Found {
    if t.Nil? then Absent
    else if t.key == key then Present(t.id, t.value)
    else Lookup(t.Kid(Side(key, t.key)), key)
  }

  /** `found->value = ...` on the record a lookup returned. */
  function Assign(t: Tree, key: Key, value: nat): Tree {
    if t.Nil? then Nil
    else if t.key == key then t.(value := value)
    else
      var dir := Side(key, t.key);
      t.WithKid(dir, Assign(t.Kid(dir), key, value))
  }

  /** The order in which `hvr_avl_serialize` writes the nodes out. */
  function Preorder(t: Tree): (s: seq<Tree>)
    ensures |s| == Size(t) && forall i :: 0 <= i < |s| ==> s[i].Node?
  {
    if t.Nil? then [] else [t] + Preorder(t.left) + Preorder(t.right)
  }

  // ----- validity -----

  /** Stored heights are exact and every node's balance is within one. */
  predicate Balanced(t: Tree) {
    t.Node? ==>
      && Balanced(t.left) && Balanced(t.right)
      && -1 <= t.Balance() <= 1
      && t.height == 1 + Max(t.left.StoredHeight(), t.right.StoredHeight())
  }

  /** Search order, with every key strictly between the bounds. */
  predicate Ordered(t: Tree, lo: int, hi: int) {
    t.Node? ==>
      && lo < t.key < hi
      && Ordered(t.left, lo, t.key) && Ordered(t.right, t.key, hi)
  }

  function Ids(t: Tree): set<nat> {
    if t.Nil? then {} else {t.id} + Ids(t.left) + Ids(t.right)
  }

  /** No record appears twice. */
  predicate Distinct(t: Tree) {
    t.Node? ==>
      && Distinct(t.left) && Distinct(t.right)
      && t.id !in Ids(t.left) && t.id !in Ids(t.right)
      && Ids(t.left) !! Ids(t.right)
  }

  function Size(t: Tree): nat {
    if t.Nil? then 0 else 1 + Size(t.left) + Size(t.right)
  }

  /** A search tree over all keys, balanced, with one record a node. */
  predicate Valid(t: Tree) {
    Balanced(t) && Ordered(t, -1, KEY_LIMIT) && Distinct(t)
  }

  // ----- rotation -----

  lemma SunkSize(t: Tree, key: Key)
    ensures t.Node? && Sunk(t, key).Node? ==> Size(Sunk(t, key)) == Size(t)
  {
    if t.Node? && Sunk(t, key).Node? && t.key == key {
      RotateKeepsRecords(t, SinkDir(t));
    }
  }

  /** A rotation keeps every record, once. */
  lemma RotateKeepsRecords(t: Tree, dir: int)
    requires dir == 0 || dir == 1
    requires t.Kid(dir).Node?
    ensures Size(Rotate(t, dir)) == Size(t)
    ensures Ids(Rotate(t, dir)) == Ids(t)
    ensures Distinct(t) ==> Distinct(Rotate(t, dir))
  {
    var up := t.Kid(dir);
    var down := t.WithKid(dir, up.Kid(1 - dir)).SetHeight();
    assert Size(up) == 1 + Size(up.left) + Size(up.right);
    assert Size(down) == 1 + Size(down.left) + Size(down.right);
    assert Ids(up) == {up.id} + Ids(up.left) + Ids(up.right);
    assert Ids(down) == {t.id} + Ids(down.left) + Ids(down.right);
    if Distinct(t) {
      assert Distinct(up);
      assert Distinct(down);
    }
  }

  /** A rotation keeps the search order and what every lookup finds. */
  lemma RotateKeepsOrder(t: Tree, dir: int, lo: int, hi: int)
    requires dir == 0 || dir == 1
    requires t.Kid(dir).Node? && Ordered(t, lo, hi)
    ensures Ordered(Rotate(t, dir), lo, hi)
    ensures forall k: Key :: Lookup(Rotate(t, dir), k) == Lookup(t, k)
  {
    var up := t.Kid(dir);
    var down := t.WithKid(dir, up.Kid(1 - dir)).SetHeight();
    if dir == 0 {
      assert Ordered(up, lo, t.key);
      assert Ordered(down, up.key, hi);
    } else {
      assert Ordered(up, t.key, hi);
      assert Ordered(down, lo, up.key);
    }
    forall k: Key ensures Lookup(Rotate(t, dir), k) == Lookup(t, k) {
      assert Lookup(up, k) ==
        if up.key == k then Present(up.id, up.value) else Lookup(up.Kid(Side(k, up.key)), k);
      assert Lookup(down, k) ==
        if t.key == k then Present(t.id, t.value) else Lookup(down.Kid(Side(k, t.key)), k);
    }
  }

  // ----- one rebalancing step -----

  /** The trees `adjust_balance` can meet: kids in balance, heights at most two
      apart, or three with the taller kid leaning. */
  predicate Adjustable(t: Tree) {
    && t.Node? && Balanced(t.left) && Balanced(t.right)
    && -3 <= t.Balance() <= 2
    && (t.Balance() == -3 ==> t.right.Balance() != 0)
  }

  lemma HeightNonNegative(t: Tree)
    requires Balanced(t)
    ensures t.StoredHeight() >= 0 && (t.Node? <==> t.StoredHeight() > 0)
  {
  }

  /** How far kid `dir` stands above the other. */
  function Excess(t: Tree, dir: int): int {
    t.Kid(dir).StoredHeight() - t.Kid(1 - dir).StoredHeight()
  }

  /** Rotating a kid that does not lean inward up over a node it outgrew. */
  lemma SingleRotation(t: Tree, dir: int)
    requires dir == 0 || dir == 1
    requires t.Node? && Balanced(t.left) && Balanced(t.right)
    requires Excess(t.Kid(dir), dir) >= 0
    requires Excess(t, dir) == 2 || (Excess(t, dir) == 3 && Excess(t.Kid(dir), dir) == 1)
    ensures var r := Rotate(t, dir).SetHeight();
      && Balanced(r) && r.Node?
      && (Excess(t, dir) == 2 ==> Excess(r, dir) == Excess(t.Kid(dir), dir) - 1)
      && r.height == t.Kid(dir).height + (if Excess(t.Kid(dir), dir) == 0 then 1 else 0)
  {
    HeightNonNegative(t.Kid(1 - dir));
    var up := t.Kid(dir);
    HeightNonNegative(up.left);
    HeightNonNegative(up.right);
    var down := t.WithKid(dir, up.Kid(1 - dir)).SetHeight();
    assert Balanced(down);
  }

  /** Rotating the inner grandkid up over both. */
  lemma DoubleRotation(t: Tree, dir: int)
    requires dir == 0 || dir == 1
    requires t.Node? && Balanced(t.left) && Balanced(t.right)
    requires Excess(t.Kid(dir), dir) == -1
    requires 2 <= Excess(t, dir) <= 3
    ensures var r := Rotate(t.WithKid(dir, Rotate(t.Kid(dir), 1 - dir)), dir).SetHeight();
      && Balanced(r) && r.Node?
      && (Excess(t, dir) == 2 ==> Excess(r, dir) == 0)
      && r.height == t.Kid(dir).height
  {
    HeightNonNegative(t.Kid(1 - dir));
    var up := t.Kid(dir);
    var top := up.Kid(1 - dir);
    HeightNonNegative(up.Kid(dir));
    HeightNonNegative(top);
    HeightNonNegative(top.left);
    HeightNonNegative(top.right);
    var outer := up.WithKid(1 - dir, top.Kid(dir)).SetHeight();
    var down := t.WithKid(dir, top.Kid(1 - dir)).SetHeight();
    assert Balanced(outer);
    assert Balanced(down);
    assert Rotate(up, 1 - dir) == top.WithKid(dir, outer);
  }

  /** What a rebalancing leaves, whichever rotation it takes. */
  lemma RebalanceHeights(t: Tree, dir: int)
    requires dir == 0 || dir == 1
    requires t.Node? && Balanced(t.left) && Balanced(t.right)
    requires Excess(t, dir) == 2 || (Excess(t, dir) == 3 && Excess(t.Kid(dir), dir) != 0)
    ensures var kid := t.Kid(dir);
      var r := Rotate(Straighten(t, dir, 1 - 2 * dir), dir).SetHeight();
      && Balanced(r) && r.Node?
      && r.height == kid.height + (if Excess(kid, dir) == 0 then 1 else 0)
      && (Excess(t, dir) == 2 ==> Excess(r, dir) == if Excess(kid, dir) == 0 then -1 else 0)
  {
    HeightNonNegative(t.Kid(1 - dir));
    if Excess(t.Kid(dir), dir) == -1 {
      DoubleRotation(t, dir);
    } else {
      SingleRotation(t, dir);
    }
  }

  /** One `adjust_balance` restores the balance of any tree it can meet, and
      the height and lean it leaves follow from those it found. */
  lemma AdjustBalances(t: Tree)
    requires Adjustable(t)
    ensures Balanced(Adjust(t)) && Adjust(t).Node?
    ensures var x, y, r := t.left.StoredHeight(), t.right.StoredHeight(), Adjust(t);
      match t.Balance()
      case 2 => if t.left.Balance() == 0 then r.height == x + 1 && r.Balance() == -1
                else r.height == x && r.Balance() == 0
      case -2 => if t.right.Balance() == 0 then r.height == y + 1 && r.Balance() == 1
                 else r.height == y && r.Balance() == 0
      case -3 => r.height == y
      case _ => r.height == 1 + Max(x, y) && r.Balance() == t.Balance()
  {
    if t.Balance() == 2 {
      RebalanceHeights(t, 0);
    } else if t.Balance() < -1 {
      RebalanceHeights(t, 1);
    }
  }

  lemma LeaningKid(kid: Tree, dir: int, b: int)
    requires Balanced(kid) && (dir == 0 || dir == 1) && b == 1 - 2 * dir
    requires kid.Balance() == -b
    ensures kid.Kid(1 - dir).Node?
  {
    HeightNonNegative(kid);
    if kid.Node? {
      HeightNonNegative(kid.left);
      HeightNonNegative(kid.right);
    }
  }

  lemma StraightenKeepsRecords(t: Tree, dir: int, b: int)
    requires t.Node? && (dir == 0 || dir == 1) && b == 1 - 2 * dir && Balanced(t.Kid(dir))
    ensures Ids(Straighten(t, dir, b)) == Ids(t) && Size(Straighten(t, dir, b)) == Size(t)
    ensures Distinct(t) ==> Distinct(Straighten(t, dir, b))
  {
    if t.Kid(dir).Balance() == -b {
      LeaningKid(t.Kid(dir), dir, b);
      var kid := Rotate(t.Kid(dir), 1 - dir);
      RotateKeepsRecords(t.Kid(dir), 1 - dir);
      if Distinct(t) { WithKidRecords(t, dir, kid); }
      assert Ids(t.WithKid(dir, kid)) == {t.id} + Ids(t.Kid(1 - dir)) + Ids(kid);
    }
  }

  /** `adjust_balance` keeps every record, once. */
  lemma AdjustKeepsRecords(t: Tree)
    requires Adjustable(t)
    ensures Size(Adjust(t)) == Size(t) && Ids(Adjust(t)) == Ids(t)
    ensures Distinct(t) ==> Distinct(Adjust(t))
  {
    var b := TruncHalf(t.Balance());
    if b != 0 {
      var dir := TruncHalf(1 - b);
      StraightenKeepsRecords(t, dir, b);
      StraightenKeepsKid(t, dir, b);
      RotateKeepsRecords(Straighten(t, dir, b), dir);
    }
  }

  lemma StraightenKeepsOrder(t: Tree, dir: int, b: int, lo: int, hi: int)
    requires t.Node? && (dir == 0 || dir == 1) && b == 1 - 2 * dir
    requires Balanced(t.left) && Balanced(t.right) && Ordered(t, lo, hi)
    ensures Ordered(Straighten(t, dir, b), lo, hi)
    ensures forall k: Key :: Lookup(Straighten(t, dir, b), k) == Lookup(t, k)
  {
    var kid := t.Kid(dir);
    if kid.Balance() == -b {
      LeaningKid(kid, dir, b);
      RotateKeepsOrder(kid, 1 - dir, if dir == 0 then lo else t.key, if dir == 0 then t.key else hi);
    }
  }

  /** `adjust_balance` keeps the search order and every lookup. */
  lemma AdjustKeepsOrder(t: Tree, lo: int, hi: int)
    requires Adjustable(t) && Ordered(t, lo, hi)
    ensures Ordered(Adjust(t), lo, hi)
    ensures forall k: Key :: Lookup(Adjust(t), k) == Lookup(t, k)
  {
    var b := TruncHalf(t.Balance());
    if b != 0 {
      var dir := TruncHalf(1 - b);
      StraightenKeepsOrder(t, dir, b, lo, hi);
      StraightenKeepsKid(t, dir, b);
      RotateKeepsOrder(Straighten(t, dir, b), dir, lo, hi);
      SetHeightKeepsOrder(Rotate(Straighten(t, dir, b), dir), lo, hi);
    } else {
      SetHeightKeepsOrder(t, lo, hi);
    }
  }

  lemma StraightenKeepsKid(t: Tree, dir: int, b: int)
    requires t.Node? && (dir == 0 || dir == 1) && b == 1 - 2 * dir
    requires Balanced(t.left) && Balanced(t.right) && Excess(t, dir) > 0
    ensures Straighten(t, dir, b).Kid(dir).Node?
  {
    HeightNonNegative(t.Kid(1 - dir));
    HeightNonNegative(t.Kid(dir).left);
    HeightNonNegative(t.Kid(dir).right);
  }

  lemma SetHeightKeepsOrder(t: Tree, lo: int, hi: int)
    requires Ordered(t, lo, hi)
    ensures Ordered(t.SetHeight(), lo, hi)
    ensures forall k: Key :: Lookup(t.SetHeight(), k) == Lookup(t, k)
  {
  }

  // ----- insertion -----

  /** Insertion keeps the balance and grows the tree by at most one level. */
  lemma {:induction false} InsertBalances(t: Tree, key: Key, value: nat, spare: nat)
    requires Balanced(t)
    ensures var r := Insert(t, key, value, spare);
      && Balanced(r) && r.Node?
      && t.StoredHeight() <= r.height <= t.StoredHeight() + 1
      && (r.height == t.StoredHeight() + 1 && t.Node? ==> r.Balance() != 0)
  {
    if t.Node? && key != t.key {
      var dir := Side(key, t.key);
      InsertBalances(t.Kid(dir), key, value, spare);
      GrownKid(t, dir, Insert(t.Kid(dir), key, value, spare));
    }
  }

  /** One kid grew by at most a level, and leans if it did. */
  lemma GrownKid(t: Tree, dir: int, kid: Tree)
    requires dir == 0 || dir == 1
    requires t.Node? && Balanced(t) && Balanced(kid) && kid.Node?
    requires t.Kid(dir).StoredHeight() <= kid.height <= t.Kid(dir).StoredHeight() + 1
    requires kid.height == t.Kid(dir).StoredHeight() + 1 && t.Kid(dir).Node? ==> kid.Balance() != 0
    ensures var r := Adjust(t.WithKid(dir, kid));
      && Balanced(r) && r.Node?
      && t.height <= r.height <= t.height + 1
      && (r.height == t.height + 1 ==> r.Balance() != 0)
  {
    HeightNonNegative(t.left);
    HeightNonNegative(t.right);
    AdjustBalances(t.WithKid(dir, kid));
  }

  /** Replacing one kid by a tree over other records. */
  lemma WithKidRecords(t: Tree, dir: int, kid: Tree)
    requires dir == 0 || dir == 1
    requires t.Node? && Distinct(t) && Distinct(kid)
    requires t.id !in Ids(kid) && Ids(kid) !! Ids(t.Kid(1 - dir))
    ensures Distinct(t.WithKid(dir, kid))
    ensures Ids(t.WithKid(dir, kid)) == Ids(t) - Ids(t.Kid(dir)) + Ids(kid)
    ensures Size(t.WithKid(dir, kid)) == Size(t) - Size(t.Kid(dir)) + Size(kid)
  {
    assert Ids(t.WithKid(dir, kid)) == {t.id} + Ids(t.Kid(1 - dir)) + Ids(kid);
  }

  /** A tree already in balance is left alone. */
  lemma AdjustIdle(t: Tree)
    requires Balanced(t)
    ensures Adjust(t) == t
  {
  }

  /** Inserting a key that is there changes nothing, whatever the spare. */
  lemma {:induction false} InsertPresent(t: Tree, key: Key, value: nat, spare: nat)
    requires Balanced(t) && Lookup(t, key).Present?
    ensures Insert(t, key, value, spare) == t
  {
    if key != t.key {
      InsertPresent(t.Kid(Side(key, t.key)), key, value, spare);
      AdjustIdle(t);
    }
  }

  /** Inserting a new key uses the spare record, and no other. */
  lemma {:induction false} InsertKeepsRecords(t: Tree, key: Key, value: nat, spare: nat)
    requires Balanced(t) && Distinct(t) && spare !in Ids(t) && Lookup(t, key).Absent?
    ensures Distinct(Insert(t, key, value, spare))
    ensures Size(Insert(t, key, value, spare)) == Size(t) + 1
    ensures Ids(Insert(t, key, value, spare)) == Ids(t) + {spare}
  {
    if t.Node? {
      var dir := Side(key, t.key);
      var kid := Insert(t.Kid(dir), key, value, spare);
      InsertKeepsRecords(t.Kid(dir), key, value, spare);
      InsertBalances(t.Kid(dir), key, value, spare);
      WithKidRecords(t, dir, kid);
      HeightNonNegative(t.left);
      HeightNonNegative(t.right);
      AdjustKeepsRecords(t.WithKid(dir, kid));
    }
  }

  /** Insertion keeps the search order and changes what is found under no other key. */
  lemma {:induction false} InsertRefines(t: Tree, key: Key, value: nat, spare: nat, lo: int, hi: int)
    requires Balanced(t) && Ordered(t, lo, hi) && lo < key < hi
    ensures var r := Insert(t, key, value, spare);
      && Ordered(r, lo, hi)
      && forall k: Key :: Lookup(r, k) ==
           if k == key && Lookup(t, key).Absent? then Present(spare, value) else Lookup(t, k)
  {
    if t.Node? && key != t.key {
      var dir := Side(key, t.key);
      InsertBalances(t.Kid(dir), key, value, spare);
      InsertRefines(t.Kid(dir), key, value, spare,
                    if dir == 0 then lo else t.key, if dir == 0 then t.key else hi);
      var w := t.WithKid(dir, Insert(t.Kid(dir), key, value, spare));
      HeightNonNegative(t.left);
      HeightNonNegative(t.right);
      AdjustKeepsOrder(w, lo, hi);
    }
  }

  // ----- deletion -----

  /** A node about to be rotated off, on the way down: its kids are in balance
      but it may be up to two levels out of balance itself. */
  predicate Doomed(t: Tree, key: Key) {
    && t.Node? && t.key == key
    && Balanced(t.left) && Balanced(t.right)
    && -2 <= t.Balance() <= 1
  }

  /** What deleting a root leaves, by the heights x and y of its kids. */
  predicate DeleteRootOutcome(x: int, y: int, height: int, balance: int) {
    && (y == x ==> height == if x == 0 then 0 else x + 1)
    && (y == x + 1 ==> (height == y && balance == 0) || (height == y + 1 && balance != 0))
    && (y == x + 2 ==> height == y || (height == y + 1 && balance == 1))
    && (x == y + 1 ==> height == x || height == x + 1)
  }

  /** One level of the descent. The taller kid `up` takes the doomed node's
      place; `rest` is what the deletion below left; one adjustment must do. */
  lemma SinkLeft(up: Tree, rest: Tree, y: int)
    requires up.Node? && Balanced(up) && Balanced(rest)
    requires y >= 0 && up.height - y in {0, 1}
    requires DeleteRootOutcome(up.right.StoredHeight(), y, rest.StoredHeight(), rest.Balance())
    ensures var r := Adjust(up.WithKid(1, rest));
      && Balanced(r) && r.Node?
      && DeleteRootOutcome(up.height, y, r.height, r.Balance())
  {
    HeightNonNegative(up.left);
    HeightNonNegative(up.right);
    AdjustBalances(up.WithKid(1, rest));
  }

  lemma SinkRight(up: Tree, rest: Tree, x: int)
    requires up.Node? && Balanced(up) && Balanced(rest)
    requires x >= 0 && up.height - x in {1, 2}
    requires DeleteRootOutcome(x, up.left.StoredHeight(), rest.StoredHeight(), rest.Balance())
    ensures var r := Adjust(up.WithKid(0, rest));
      && Balanced(r) && r.Node?
      && DeleteRootOutcome(x, up.height, r.height, r.Balance())
  {
    HeightNonNegative(up.left);
    HeightNonNegative(up.right);
    AdjustBalances(up.WithKid(0, rest));
  }

  /** Deleting a root whose kids have heights x and y. */
  lemma {:induction false} DeleteRootHeights(t: Tree, key: Key, lo: int, hi: int)
    requires Doomed(t, key) && Ordered(t, lo, hi)
    ensures Balanced(Delete(t, key))
    ensures DeleteRootOutcome(t.left.StoredHeight(), t.right.StoredHeight(),
                              Delete(t, key).StoredHeight(), Delete(t, key).Balance())
    decreases Size(t)
  {
    HeightNonNegative(t.left);
    HeightNonNegative(t.right);
    var dir := SinkDir(t);
    if t.Kid(dir).Node? {
      var t1 := Rotate(t, dir);
      var down := t1.Kid(1 - dir);
      SinkKeepsDoomed(t, key, lo, hi);
      DeleteRootHeights(down, key, if dir == 0 then t1.key else lo, if dir == 0 then hi else t1.key);
      if dir == 0 {
        SinkLeft(t.left, Delete(down, key), t.right.StoredHeight());
      } else {
        SinkRight(t.right, Delete(down, key), t.left.StoredHeight());
      }
    }
  }

  /** The doomed node stays doomed, and on the search path, one level down. */
  lemma SinkKeepsDoomed(t: Tree, key: Key, lo: int, hi: int)
    requires Doomed(t, key) && Ordered(t, lo, hi)
    requires t.Kid(SinkDir(t)).Node?
    ensures var dir := SinkDir(t);
      var t1 := Rotate(t, dir);
      var down := t1.Kid(1 - dir);
      && t1 == Sunk(t, key) && Side(key, t1.key) == 1 - dir
      && Doomed(down, key) && Size(down) < Size(t)
      && Ordered(down, if dir == 0 then t1.key else lo, if dir == 0 then hi else t1.key)
  {
    var dir := SinkDir(t);
    HeightNonNegative(t.left);
    HeightNonNegative(t.right);
    RotateKeepsRecords(t, dir);
    RotateKeepsOrder(t, dir, lo, hi);
  }

  /** The trees `hvr_avl_delete` is ever called on. */
  predicate Deletable(t: Tree, key: Key) {
    Balanced(t) || Doomed(t, key)
  }

  /** Deletion keeps the balance, and the height falls by at most one. */
  lemma {:induction false} DeleteBalances(t: Tree, key: Key, lo: int, hi: int)
    requires Balanced(t) && Ordered(t, lo, hi)
    ensures Balanced(Delete(t, key))
    ensures t.StoredHeight() - 1 <= Delete(t, key).StoredHeight() <= t.StoredHeight()
    decreases Size(t)
  {
    if t.Node? {
      HeightNonNegative(t.left);
      HeightNonNegative(t.right);
      if t.key == key {
        DeleteRootHeights(t, key, lo, hi);
      } else {
        var dir := Side(key, t.key);
        DeleteBalances(t.Kid(dir), key, if dir == 0 then lo else t.key, if dir == 0 then t.key else hi);
        AdjustBalances(t.WithKid(dir, Delete(t.Kid(dir), key)));
      }
    }
  }

  /** The bounds on the keys of kid `dir`. */
  function KidLo(t: Tree, dir: int, lo: int): int
    requires t.Node?
  {
    if dir == 0 then lo else t.key
  }

  function KidHi(t: Tree, dir: int, hi: int): int
    requires t.Node?
  {
    if dir == 0 then t.key else hi
  }

  /** A node a deletion passes through: the recursive call is made on a tree
      that can be handled, and `adjust_balance` then meets one it can repair. */
  predicate Passes(t: Tree, key: Key, lo: int, hi: int) {
    && t.Node? && t.key != key && Ordered(t, lo, hi)
    && var dir := Side(key, t.key);
    && Ordered(t.Kid(dir), KidLo(t, dir, lo), KidHi(t, dir, hi))
    && Deletable(t.Kid(dir), key)
    && Adjustable(t.WithKid(dir, Delete(t.Kid(dir), key)))
  }

  lemma PlainStep(t: Tree, key: Key, lo: int, hi: int)
    requires Balanced(t) && Ordered(t, lo, hi) && t.Node? && t.key != key
    ensures Passes(t, key, lo, hi)
  {
    var dir := Side(key, t.key);
    DeleteBalances(t.Kid(dir), key, KidLo(t, dir, lo), KidHi(t, dir, hi));
  }

  lemma DoomedStep(t: Tree, key: Key, lo: int, hi: int)
    requires Doomed(t, key) && Ordered(t, lo, hi) && Sunk(t, key).Node?
    ensures Passes(Sunk(t, key), key, lo, hi)
  {
    HeightNonNegative(t.left);
    HeightNonNegative(t.right);
    var t1 := Sunk(t, key);
    var dir := Side(key, t1.key);
    SinkKeepsDoomed(t, key, lo, hi);
    RotateKeepsOrder(t, SinkDir(t), lo, hi);
    DeleteRootHeights(t1.Kid(dir), key, KidLo(t1, dir, lo), KidHi(t1, dir, hi));
    SinkAdjustable(t, Delete(t1.Kid(dir), key));
  }

  /** At every level of a deletion the step succeeds, whatever transient
      imbalance the doomed node has caused, and it passes on to a smaller tree. */
  lemma DeleteStep(t: Tree, key: Key, lo: int, hi: int)
    requires Deletable(t, key) && Ordered(t, lo, hi)
    requires t.Node? && Sunk(t, key).Node?
    ensures Passes(Sunk(t, key), key, lo, hi)
    ensures Size(Sunk(t, key)) == Size(t) && Ids(Sunk(t, key)) == Ids(t)
    ensures Distinct(t) ==> Distinct(Sunk(t, key))
    ensures forall k: Key :: Lookup(Sunk(t, key), k) == Lookup(t, k)
  {
    if t.key == key {
      DoomedStep(t, key, lo, hi);
      RotateKeepsRecords(t, SinkDir(t));
      RotateKeepsOrder(t, SinkDir(t), lo, hi);
    } else {
      PlainStep(t, key, lo, hi);
    }
  }

  lemma SinkAdjustable(t: Tree, rest: Tree)
    requires t.Kid(SinkDir(t)).Node?
    requires Balanced(t.left) && Balanced(t.right) && -2 <= t.Balance() <= 1
    requires Balanced(rest)
    requires if SinkDir(t) == 0
      then DeleteRootOutcome(t.left.right.StoredHeight(), t.right.StoredHeight(), rest.StoredHeight(), rest.Balance())
      else DeleteRootOutcome(t.left.StoredHeight(), t.right.left.StoredHeight(), rest.StoredHeight(), rest.Balance())
    ensures Adjustable(Rotate(t, SinkDir(t)).WithKid(1 - SinkDir(t), rest))
  {
    HeightNonNegative(t.left);
    HeightNonNegative(t.right);
    var up := t.Kid(SinkDir(t));
    HeightNonNegative(up.left);
    HeightNonNegative(up.right);
  }

  /** Deletion loses exactly the record that held the key. */
  lemma {:induction false} DeleteKeepsRecords(t: Tree, key: Key, lo: int, hi: int)
    requires Deletable(t, key) && Ordered(t, lo, hi) && Distinct(t)
    ensures Distinct(Delete(t, key))
    ensures Lookup(t, key).Absent? ==> Delete(t, key) == t
    ensures Lookup(t, key).Present? ==>
      && Lookup(t, key).id in Ids(t)
      && Ids(Delete(t, key)) == Ids(t) - {Lookup(t, key).id}
      && Size(Delete(t, key)) == Size(t) - 1
    decreases Size(t)
  {
    if t.Node? {
      var t1 := Sunk(t, key);
      if t1.Node? {
        DeleteStep(t, key, lo, hi);
        var dir := Side(key, t1.key);
        var kid := t1.Kid(dir);
        DeleteKeepsRecords(kid, key, KidLo(t1, dir, lo), KidHi(t1, dir, hi));
        assert Lookup(kid, key) == Lookup(t, key);
        if Lookup(t, key).Absent? {
          AdjustIdle(t);
        } else {
          PassedRecords(t1, key, lo, hi);
        }
      } else {
        RotatedOffIsLeaf(t, key);
      }
    }
  }

  lemma PassedRecords(t: Tree, key: Key, lo: int, hi: int)
    requires Passes(t, key, lo, hi) && Distinct(t)
    requires var kid := t.Kid(Side(key, t.key));
      && Lookup(kid, key).Present? && Lookup(kid, key).id in Ids(kid)
      && Distinct(Delete(kid, key))
      && Ids(Delete(kid, key)) == Ids(kid) - {Lookup(kid, key).id}
      && Size(Delete(kid, key)) == Size(kid) - 1
    ensures var dir := Side(key, t.key);
      var r := Adjust(t.WithKid(dir, Delete(t.Kid(dir), key)));
      && Distinct(r) && Size(r) == Size(t) - 1
      && Lookup(t, key).id in Ids(t) && Ids(r) == Ids(t) - {Lookup(t, key).id}
  {
    var dir := Side(key, t.key);
    var rest := Delete(t.Kid(dir), key);
    WithKidRecords(t, dir, rest);
    AdjustKeepsRecords(t.WithKid(dir, rest));
  }

  lemma RotatedOffIsLeaf(t: Tree, key: Key)
    requires Deletable(t, key) && t.Node? && Sunk(t, key).Nil?
    ensures t.key == key && t.left.Nil? && t.right.Nil?
  {
    HeightNonNegative(t.left);
    HeightNonNegative(t.right);
  }

  /** Deletion keeps the search order and removes that key's entry only. */
  lemma {:induction false} DeleteRefines(t: Tree, key: Key, lo: int, hi: int)
    requires Deletable(t, key) && Ordered(t, lo, hi)
    ensures Ordered(Delete(t, key), lo, hi)
    ensures forall k: Key :: Lookup(Delete(t, key), k) == if k == key then Absent else Lookup(t, k)
    decreases Size(t)
  {
    if t.Node? {
      var t1 := Sunk(t, key);
      if t1.Node? {
        DeleteStep(t, key, lo, hi);
        var dir := Side(key, t1.key);
        DeleteRefines(t1.Kid(dir), key, KidLo(t1, dir, lo), KidHi(t1, dir, hi));
        PassedOrder(t1, key, lo, hi);
      } else {
        RotatedOffIsLeaf(t, key);
      }
    }
  }

  lemma PassedOrder(t: Tree, key: Key, lo: int, hi: int)
    requires Passes(t, key, lo, hi)
    requires var dir := Side(key, t.key);
      && Ordered(Delete(t.Kid(dir), key), KidLo(t, dir, lo), KidHi(t, dir, hi))
      && forall k: Key :: Lookup(Delete(t.Kid(dir), key), k) ==
           if k == key then Absent else Lookup(t.Kid(dir), k)
    ensures var dir := Side(key, t.key);
      var r := Adjust(t.WithKid(dir, Delete(t.Kid(dir), key)));
      Ordered(r, lo, hi) && forall k: Key :: Lookup(r, k) == if k == key then Absent else Lookup(t, k)
  {
    var dir := Side(key, t.key);
    var w := t.WithKid(dir, Delete(t.Kid(dir), key));
    AdjustKeepsOrder(w, lo, hi);
    forall k: Key ensures Lookup(w, k) == if k == key then Absent else Lookup(t, k) {
      var side := Side(k, t.key);
      assert Lookup(w, k) == if k == t.key then Present(t.id, t.value) else Lookup(w.Kid(side), k);
      assert Lookup(t, k) == if k == t.key then Present(t.id, t.value) else Lookup(t.Kid(side), k);
    }
  }

  // ----- the main results -----

  /** `hvr_avl_insert` on any valid tree: a valid tree that maps the key, if it
      was new, to the value, and is otherwise unchanged as a map. */
  lemma InsertTheorem(t: Tree, key: Key, value: nat, spare: nat)
    requires Valid(t) && spare !in Ids(t)
    ensures var r := Insert(t, key, value, spare);
      && Valid(r)
      && (forall k: Key :: Lookup(r, k) ==
           if k == key && Lookup(t, key).Absent? then Present(spare, value) else Lookup(t, k))
      && (if Lookup(t, key).Absent?
          then Size(r) == Size(t) + 1 && Ids(r) == Ids(t) + {spare}
          else r == t)
  {
    InsertBalances(t, key, value, spare);
    if Lookup(t, key).Absent? {
      InsertKeepsRecords(t, key, value, spare);
    } else {
      InsertPresent(t, key, value, spare);
    }
    InsertRefines(t, key, value, spare, -1, KEY_LIMIT);
  }

  /** `hvr_avl_delete` on any valid tree: a valid tree at most one level
      lower, the same map without the key, and only that key's record freed. */
  lemma DeleteTheorem(t: Tree, key: Key)
    requires Valid(t)
    ensures var r := Delete(t, key);
      && Valid(r)
      && t.StoredHeight() - 1 <= r.StoredHeight() <= t.StoredHeight()
      && (forall k: Key :: Lookup(r, k) == if k == key then Absent else Lookup(t, k))
      && (if Lookup(t, key).Present?
          then Lookup(t, key).id in Ids(t) && Ids(r) == Ids(t) - {Lookup(t, key).id} && Size(r) == Size(t) - 1
          else r == t)
  {
    DeleteBalances(t, key, -1, KEY_LIMIT);
    DeleteKeepsRecords(t, key, -1, KEY_LIMIT);
    DeleteRefines(t, key, -1, KEY_LIMIT);
  }

  /** Inserting a new key and deleting it again gives back the same map. */
  lemma InsertThenDelete(t: Tree, key: Key, value: nat, spare: nat)
    requires Valid(t) && spare !in Ids(t) && Lookup(t, key).Absent?
    ensures var r := Delete(Insert(t, key, value, spare), key);
      Ids(r) == Ids(t) && forall k: Key :: Lookup(r, k) == Lookup(t, k)
  {
    InsertTheorem(t, key, value, spare);
    DeleteTheorem(Insert(t, key, value, spare), key);
  }

  /** Overwriting the value a lookup found changes that entry alone. */
  lemma {:induction false} AssignRefines(t: Tree, key: Key, value: nat, lo: int, hi: int)
    requires Balanced(t) && Ordered(t, lo, hi) && Distinct(t)
    ensures var r := Assign(t, key, value);
      && Balanced(r) && Ordered(r, lo, hi) && Distinct(r)
      && Ids(r) == Ids(t) && Size(r) == Size(t) && r.StoredHeight() == t.StoredHeight()
      && forall k: Key :: Lookup(r, k) ==
           if k == key && Lookup(t, k).Present? then Present(Lookup(t, k).id, value) else Lookup(t, k)
  {
    if t.Node? && t.key != key {
      var dir := Side(key, t.key);
      AssignRefines(t.Kid(dir), key, value,
                    if dir == 0 then lo else t.key, if dir == 0 then t.key else hi);
      WithKidRecords(t, dir, Assign(t.Kid(dir), key, value));
    }
  }

  // ----- heights fit in int16_t -----

  function Fib(n: nat): nat {
    if n < 2 then n else Fib(n - 2) + Fib(n - 1)
  }

  lemma {:induction false} FibMonotone(m: nat, n: nat)
    requires m <= n
    ensures Fib(m) <= Fib(n)
    decreases n
  {
    if m < n { FibMonotone(m, n - 1); }
  }

  /** A balanced tree of height h has at least Fib(h + 2) - 1 nodes. */
  lemma {:induction false} SizeAtLeastFib(t: Tree)
    requires Balanced(t)
    ensures t.StoredHeight() >= 0 && Size(t) + 1 >= Fib(t.StoredHeight() + 2)
  {
    if t.Node? {
      SizeAtLeastFib(t.left);
      SizeAtLeastFib(t.right);
      var x, y := t.left.StoredHeight(), t.right.StoredHeight();
      FibMonotone(t.height, x + 2);
      FibMonotone(t.height, y + 2);
    }
  }

  lemma {:induction false} SizeAtMostRange(t: Tree, lo: int, hi: int)
    requires Ordered(t, lo, hi) && lo < hi
    ensures Size(t) <= hi - lo - 1
  {
    if t.Node? {
      SizeAtMostRange(t.left, lo, t.key);
      SizeAtMostRange(t.right, t.key, hi);
    }
  }

  lemma FibAt48()
    ensures Fib(48) == 4807526976
  {
    assert Fib(12) == 144 && Fib(13) == 233;
    assert Fib(24) == 46368 && Fib(25) == 75025 by { assert Fib(18) == 2584 && Fib(19) == 4181; }
    assert Fib(36) == 14930352 && Fib(37) == 24157817 by { assert Fib(30) == 832040 && Fib(31) == 1346269; }
    assert Fib(42) == 267914296 && Fib(43) == 433494437;
  }

  /** No tree over 32-bit keys is higher than 45, so `int16_t height` never overflows. */
  lemma HeightFits(t: Tree)
    requires Valid(t)
    ensures 0 <= t.StoredHeight() <= 45
  {
    SizeAtLeastFib(t);
    SizeAtMostRange(t, -1, KEY_LIMIT);
    FibAt48();
    if t.StoredHeight() > 45 { FibMonotone(48, t.StoredHeight() + 2); }
  }

  // ----- serialisation -----

  /** Serialising lists only entries of the tree. */
  lemma {:induction false} PreorderSound(t: Tree, lo: int, hi: int)
    requires Ordered(t, lo, hi)
    ensures forall i :: 0 <= i < Size(t) ==>
      var n := Preorder(t)[i];
      lo < n.key < hi && Lookup(t, n.key) == Present(n.id, n.value)
  {
    if t.Node? {
      PreorderSound(t.left, lo, t.key);
      PreorderSound(t.right, t.key, hi);
    }
  }

  /** Serialising lists no entry twice. */
  lemma {:induction false} PreorderOnce(t: Tree, lo: int, hi: int)
    requires Ordered(t, lo, hi)
    ensures forall i, j :: 0 <= i < j < Size(t) ==> Preorder(t)[i].key != Preorder(t)[j].key
  {
    if t.Node? {
      PreorderOnce(t.left, lo, t.key);
      PreorderOnce(t.right, t.key, hi);
      PreorderSound(t.left, lo, t.key);
      PreorderSound(t.right, t.key, hi);
    }
  }

  /** Serialising misses no entry. */
  lemma {:induction false} PreorderComplete(t: Tree, lo: int, hi: int, k: Key) returns (i: nat)
    requires Ordered(t, lo, hi) && Lookup(t, k).Present?
    ensures i < Size(t) && Preorder(t)[i].key == k
  {
    if k == t.key {
      i := 0;
    } else if k < t.key {
      i := PreorderComplete(t.left, lo, t.key, k);
      i := i + 1;
    } else {
      i := PreorderComplete(t.right, t.key, hi, k);
      i := i + 1 + Size(t.left);
    }
  }
}
