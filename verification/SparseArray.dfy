/** The sparse array of src/hvr_sparse_arr.cpp: a relation between row numbers and
    32-bit values, one AVL tree a row over one node pool, rows grouped in segments
    that are instantiated when first written, and the size of each row cached. */
module SparseArray {
  import opened AvlTree
  import opened AvlPool
  import opened AvlForest
  import opened Sets
  import opened Wrappers

  const SEG_SIZE: nat := 1024

  /** The two assertions an insert can trip, or its success. */
  datatype InsertOutcome = OutOfSegments | OutOfNodes | Inserted

  /** `(i, j)` is stored. */
  predicate Related(rows: seq<Tree>, i: nat, j: Key) {
    i < |rows| && Lookup(rows[i], j).Present?
  }

  ghost predicate Adds(rows: seq<Tree>, rows': seq<Tree>, i: nat, j: Key) {
    && |rows'| == |rows|
    && forall k: nat, l: Key {:trigger Related(rows', k, l)} ::
         Related(rows', k, l) <==> Related(rows, k, l) || (k == i && l == j)
  }

  /** The pairs of rows `lo` up to `hi` with value `j` are gone, and no others. */
  ghost predicate Drops(rows: seq<Tree>, rows': seq<Tree>, lo: nat, hi: nat, j: Key) {
    && |rows'| == |rows|
    && forall k: nat, l: Key {:trigger Related(rows', k, l)} ::
         Related(rows', k, l) <==> Related(rows, k, l) && !(lo <= k < hi && l == j)
  }

  /** The sequence is row `i`, each value once. */
  ghost predicate Lists(s: seq<nat>, rows: seq<Tree>, i: nat) {
    NoRepeats(s) && forall j: Key :: Related(rows, i, j) <==> j in s
  }

  lemma DropsTwice(a: seq<Tree>, b: seq<Tree>, c: seq<Tree>, lo: nat, mid: nat, hi: nat, j: Key)
    requires lo <= mid <= hi && Drops(a, b, lo, mid, j) && Drops(b, c, mid, hi, j)
    ensures Drops(a, c, lo, hi, j)
  {
    forall k: nat, l: Key ensures Related(c, k, l) <==> Related(a, k, l) && !(lo <= k < hi && l == j) {
      assert Related(b, k, l) <==> Related(a, k, l) && !(lo <= k < mid && l == j);
    }
  }

  lemma DeleteDrops(rows: seq<Tree>, i: nat, j: Key)
    requires i < |rows| && AvlTree.Valid(rows[i])
    ensures Drops(rows, rows[i := AvlTree.Delete(rows[i], j)], i, i + 1, j)
  {
    DeleteTheorem(rows[i], j);
  }

  lemma InsertAdds(rows: seq<Tree>, i: nat, j: Key, f: seq<nat>)
    requires i < |rows| && AvlTree.Valid(rows[i]) && Mirrors(rows[i])
    requires (forall p <- f :: p !in Ids(rows[i])) && (Lookup(rows[i], j).Absent? ==> f != [])
    ensures Adds(rows, rows[i := AvlTree.Insert(rows[i], j, j, Spare(f))], i, j)
  {
    InsertMirrors(rows[i], j, f);
  }

  /** Every entry of the row stores its own key. */
  ghost predicate Mirrors(t: Tree) {
    forall k: Key :: Lookup(t, k).Present? ==> Lookup(t, k).value == k
  }

  /** The cached sizes are the sizes; a segment not instantiated has no entries. */
  ghost predicate RowsOk(rows: seq<Tree>, present: seq<bool>, sizes: seq<nat>) {
    && |rows| == |sizes| == SEG_SIZE * |present|
    && (forall i :: 0 <= i < |rows| ==> sizes[i] == Size(rows[i]) && Mirrors(rows[i]))
    && (forall i :: 0 <= i < |rows| && !present[i / SEG_SIZE] ==> rows[i] == Nil)
  }

  lemma FreshRows(m: seq<Rec>, roots: seq<int>, rows: seq<Tree>, f: seq<nat>, present: seq<bool>, sizes: seq<nat>)
    requires |rows| == |roots| == |sizes| == SEG_SIZE * |present|
    requires forall i :: 0 <= i < |rows| ==> rows[i] == Nil && roots[i] == NNIL && sizes[i] == 0
    ensures Forest(m, roots, rows, f) && TotalSize(rows) == 0 && RowsOk(rows, present, sizes)
  {
    NoRows(rows);
  }

  lemma StoredRow(rows: seq<Tree>, present: seq<bool>, sizes: seq<nat>, i: nat, t: Tree)
    requires RowsOk(rows, present, sizes) && i < |rows| && present[i / SEG_SIZE] && Mirrors(t)
    ensures RowsOk(rows[i := t], present, sizes[i := Size(t)])
  {
  }

  method ClearSegment(roots: array<int>, sizes: array<nat>, seg: nat)
    requires (seg + 1) * SEG_SIZE <= roots.Length == sizes.Length
    requires forall i :: seg * SEG_SIZE <= i < (seg + 1) * SEG_SIZE ==> roots[i] == NNIL && sizes[i] == 0
    modifies roots, sizes
    ensures roots[..] == old(roots[..]) && sizes[..] == old(sizes[..])
  {
    for k := 0 to SEG_SIZE
      invariant roots[..] == old(roots[..]) && sizes[..] == old(sizes[..])
    {
      roots[seg * SEG_SIZE + k] := NNIL;
      sizes[seg * SEG_SIZE + k] := 0;
    }
  }

  class SparseArray {
    const capacity: nat
    /** `segs[s] != NULL` */
    const present: array<bool>
    /** `segs[i / SEG_SIZE]->seg[i % SEG_SIZE]` */
    const roots: array<int>
    const seg_size: array<nat>
    /** What is left of `segs_pool`. */
    var segs_left: nat
    const allocator: NodeAllocator
    ghost var rows: seq<Tree>

    ghost predicate Valid()
      reads this, present, roots, seg_size, allocator, allocator.mem
    {
      && allocator.Valid()
      && Forest(allocator.mem[..], roots[..], rows, allocator.free)
      && allocator.n_reserved == TotalSize(rows)
      && RowsOk(rows, present[..], seg_size[..])
      && capacity <= |rows|
    }

    constructor (capacity: nat, prealloc: nat, pool_size: nat)
      requires prealloc > 0 && pool_size > 0
      ensures Valid() && this.capacity == capacity && segs_left == prealloc
      ensures fresh(present) && fresh(roots) && fresh(seg_size) && fresh(allocator) && fresh(allocator.mem)
      ensures forall i, j :: !Related(rows, i, j)
    {
      var nsegs := (capacity + SEG_SIZE - 1) / SEG_SIZE;
      this.capacity := capacity;
      present := new bool[nsegs](_ => false);
      roots := new int[nsegs * SEG_SIZE](_ => NNIL);
      seg_size := new nat[nsegs * SEG_SIZE](_ => 0);
      segs_left := prealloc;
      allocator := new NodeAllocator(pool_size);
      rows := seq(nsegs * SEG_SIZE, _ => Nil);
      new;
      FreshRows(allocator.mem[..], roots[..], rows, allocator.free, present[..], seg_size[..]);
    }

    /** `hvr_sparse_arr_contains` */
    method Contains(i: nat, j: Key) returns (found: bool)
      requires Valid() && i < capacity
      ensures found <==> Related(rows, i, j)
    {
      if !present[i / SEG_SIZE] {
        return false;
      }
      var node := allocator.Find(roots[i], j, rows[i]);
      return node != NNIL;
    }

    /** Row `i` has been rebuilt in the pool; `f` was the free list. */
    ghost predicate Rebuilt(m: seq<Rec>, f: seq<nat>, i: nat, root: int, t: Tree)
      reads this, allocator, allocator.mem
    {
      && i < |rows| && allocator.Valid()
      && Holds(allocator.mem[..], root, t) && AvlTree.Valid(t) && Mirrors(t)
      && SameOutside(m, allocator.mem[..], Ids(rows[i]) + Elements(f))
      && Ids(t) <= Ids(rows[i]) + Elements(f)
      && (forall p <- allocator.free :: p !in Ids(t) && (p in f || p in Ids(rows[i])))
      && allocator.n_reserved == TotalSize(rows) - Size(rows[i]) + Size(t)
    }

    method StoreRow(i: nat, root: int, size: nat, ghost m: seq<Rec>, ghost f: seq<nat>, ghost t: Tree)
      requires Forest(m, roots[..], rows, f) && RowsOk(rows, present[..], seg_size[..]) && capacity <= |rows|
      requires Rebuilt(m, f, i, root, t) && size == Size(t)
      requires present[i / SEG_SIZE]
      modifies this`rows, roots, seg_size
      ensures Valid() && rows == old(rows)[i := t]
    {
      ReplaceRow(m, allocator.mem[..], roots[..], rows, f, allocator.free, i, root, t);
      TotalSizeUpdate(rows, i, t);
      StoredRow(rows, present[..], seg_size[..], i, t);
      ghost var was, sizes := roots[..], seg_size[..];
      roots[i] := root;
      assert roots[..] == was[i := root];
      seg_size[i] := size;
      assert seg_size[..] == sizes[i := size];
      rows := rows[i := t];
    }

    /** The tree insertion and the count, once the segment is there. */
    method InsertAt(i: nat, j: Key) returns (r: InsertOutcome)
      requires Valid() && i < |rows| && present[i / SEG_SIZE]
      modifies this`rows, roots, seg_size, allocator, allocator.mem
      ensures Valid()
      ensures r == if Lookup(old(rows)[i], j).Absent? && old(allocator.free) == [] then OutOfNodes else Inserted
      ensures rows == if r.OutOfNodes? then old(rows)
        else old(rows)[i := AvlTree.Insert(old(rows)[i], j, j, Spare(old(allocator.free)))]
    {
      ghost var m, f, row := allocator.mem[..], allocator.free, rows[i];
      RowFacts(m, roots[..], rows, f, i);
      var ins := allocator.Insert(roots[i], j, j, row);
      if ins.Exhausted? {
        return OutOfNodes;
      }
      InsertMirrors(row, j, f);
      StoreRow(i, ins.root, if ins.inserted then seg_size[i] + 1 else seg_size[i], m, f,
               AvlTree.Insert(row, j, j, Spare(f)));
      r := Inserted;
    }

    /** Delete `j` from a row of an instantiated segment. */
    method RemoveAt(i: nat, j: Key)
      requires Valid() && i < |rows| && present[i / SEG_SIZE]
      modifies this`rows, roots, seg_size, allocator, allocator.mem
      ensures Valid() && rows == old(rows)[i := AvlTree.Delete(old(rows)[i], j)]
    {
      ghost var m, f, row := allocator.mem[..], allocator.free, rows[i];
      RowFacts(m, roots[..], rows, f, i);
      var up, success := allocator.Delete(roots[i], j, row, -1, KEY_LIMIT);
      DeleteTheorem(row, j);
      StoreRow(i, up, if success then seg_size[i] - 1 else seg_size[i], m, f, AvlTree.Delete(row, j));
    }

    /** `hvr_sparse_arr_seg_init`: in a segment not instantiated the model's rows are empty already. */
    method InitSegment(seg: nat)
      requires Valid() && seg < present.Length && !present[seg]
      modifies present, roots, seg_size
      ensures Valid() && present[..] == old(present[..])[seg := true]
    {
      forall i | seg * SEG_SIZE <= i < (seg + 1) * SEG_SIZE ensures roots[i] == NNIL && seg_size[i] == 0 {
        assert i / SEG_SIZE == seg;
        RowFacts(allocator.mem[..], roots[..], rows, allocator.free, i);
      }
      ClearSegment(roots, seg_size, seg);
      present[seg] := true;
    }

    /** `hvr_sparse_arr_insert`; the failing assertion or the abort is the outcome. */
    method Insert(i: nat, j: Key) returns (r: InsertOutcome)
      requires Valid() && i < capacity
      modifies this, present, roots, seg_size, allocator, allocator.mem
      ensures Valid()
      ensures r.OutOfSegments? <==> !old(present[i / 1024]) && old(segs_left) == 0
      ensures r.OutOfNodes? <==> !r.OutOfSegments? && !Related(old(rows), i, j) && old(allocator.free) == []
      ensures if r.Inserted? then Adds(old(rows), rows, i, j) else rows == old(rows)
    {
      var seg := i / SEG_SIZE;
      if !present[seg] {
        if segs_left == 0 {
          return OutOfSegments;
        }
        segs_left := segs_left - 1;
        InitSegment(seg);
      }
      ghost var f := allocator.free;
      RowFacts(allocator.mem[..], roots[..], rows, f, i);
      r := InsertAt(i, j);
      if r.Inserted? {
        InsertAdds(old(rows), i, j, f);
      }
    }

    /** `hvr_sparse_arr_remove` */
    method Remove(i: nat, j: Key)
      requires Valid() && i < capacity
      modifies this`rows, roots, seg_size, allocator, allocator.mem
      ensures Valid()
      ensures Drops(old(rows), rows, i, i + 1, j)
    {
      if !present[i / SEG_SIZE] {
        return;
      }
      RowFacts(allocator.mem[..], roots[..], rows, allocator.free, i);
      DeleteDrops(rows, i, j);
      RemoveAt(i, j);
    }

    /** `hvr_sparse_arr_remove_value`: `j` goes from every row. */
    method RemoveValue(j: Key)
      requires Valid()
      modifies this`rows, roots, seg_size, allocator, allocator.mem
      ensures Valid()
      ensures Drops(old(rows), rows, 0, |rows|, j)
    {
      for seg := 0 to present.Length
        invariant Valid() && Drops(old(rows), rows, 0, seg * SEG_SIZE, j)
      {
        ghost var was := rows;
        if present[seg] {
          RemoveFromSegment(seg, j);
        } else {
          NothingToDrop(rows, present[..], seg_size[..], seg, j);
        }
        DropsTwice(old(rows), was, rows, 0, seg * SEG_SIZE, (seg + 1) * SEG_SIZE, j);
      }
    }

    method RemoveFromSegment(seg: nat, j: Key)
      requires Valid() && seg < present.Length && present[seg]
      modifies this`rows, roots, seg_size, allocator, allocator.mem
      ensures Valid() && Drops(old(rows), rows, seg * SEG_SIZE, (seg + 1) * SEG_SIZE, j)
    {
      for x := 0 to SEG_SIZE
        invariant Valid() && Drops(old(rows), rows, seg * SEG_SIZE, seg * SEG_SIZE + x, j)
      {
        ghost var was := rows;
        var i := seg * SEG_SIZE + x;
        assert i / SEG_SIZE == seg;
        RowFacts(allocator.mem[..], roots[..], rows, allocator.free, i);
        DeleteDrops(rows, i, j);
        RemoveAt(i, j);
        DropsTwice(old(rows), was, rows, seg * SEG_SIZE, i, i + 1, j);
      }
    }

    /** `hvr_sparse_arr_remove_row` */
    method RemoveRow(i: nat)
      requires Valid() && i < capacity
      modifies this`rows, roots, seg_size, allocator, allocator.mem
      ensures Valid()
      ensures forall k: nat, l: Key :: Related(rows, k, l) <==> Related(old(rows), k, l) && k != i
    {
      if !present[i / SEG_SIZE] {
        return;
      }
      ghost var m, f := allocator.mem[..], allocator.free;
      RowFacts(m, roots[..], rows, f, i);
      allocator.DeleteAll(roots[i], rows[i]);
      StoreRow(i, NNIL, 0, m, f, Nil);
    }

    /** `hvr_sparse_arr_linearize_row`: nothing is allocated for an empty row. */
    method LinearizeRow(i: nat) returns (n: nat, out: Option<array<nat>>)
      requires Valid() && i < capacity
      ensures Valid()
      ensures out.None? <==> forall j: Key :: !Related(rows, i, j)
      ensures out.None? ==> n == 0
      ensures out.Some? ==> fresh(out.value) && n == out.value.Length > 0 && Lists(out.value[..], rows, i)
    {
      EmptyIff(rows, i);
      if !present[i / SEG_SIZE] {
        return 0, None;
      }
      n := seg_size[i];
      RowFacts(allocator.mem[..], roots[..], rows, allocator.free, i);
      if n == 0 {
        return n, None;
      }
      var cache := new nat[n];
      ghost var buf := cache[..];
      var used := allocator.Serialize(roots[i], cache, 0, rows[i]);
      WrittenRow(buf, rows[i]);
      out := Some(cache);
    }
  }

  /** Every record of the pool is free or in exactly one row. */
  lemma RecordsAccountedFor(x: SparseArray, p: nat)
    requires x.Valid() && 0 < p <= x.allocator.pool_size
    ensures p in x.allocator.free || exists i :: 0 <= i < |x.rows| && p in Ids(x.rows[i])
    ensures forall i :: 0 <= i < |x.rows| && p in Ids(x.rows[i]) ==>
      p !in x.allocator.free && forall k :: 0 <= k < |x.rows| && k != i ==> p !in Ids(x.rows[k])
  {
    var a := x.allocator;
    PoolPartition(a.mem[..], a.head, x.roots[..], x.rows, a.free, p);
  }

  lemma NothingToDrop(rows: seq<Tree>, present: seq<bool>, sizes: seq<nat>, seg: nat, j: Key)
    requires RowsOk(rows, present, sizes) && seg < |present| && !present[seg]
    ensures Drops(rows, rows, seg * SEG_SIZE, (seg + 1) * SEG_SIZE, j)
  {
    forall k | seg * SEG_SIZE <= k < (seg + 1) * SEG_SIZE ensures rows[k] == Nil {
      assert k / SEG_SIZE == seg;
    }
  }

  lemma InsertMirrors(t: Tree, j: Key, f: seq<nat>)
    requires AvlTree.Valid(t) && Mirrors(t) && (forall p <- f :: p !in Ids(t))
    requires Lookup(t, j).Absent? ==> f != []
    ensures var r := AvlTree.Insert(t, j, j, Spare(f));
      && AvlTree.Valid(r) && Mirrors(r)
      && (forall k: Key :: Lookup(r, k).Present? <==> Lookup(t, k).Present? || k == j)
      && (if Lookup(t, j).Absent?
          then Size(r) == Size(t) + 1 && Ids(r) == Ids(t) + {Spare(f)} && Spare(f) in f
          else r == t)
  {
    if Lookup(t, j).Absent? {
      InsertTheorem(t, j, j, f[0]);
    } else {
      InsertPresent(t, j, j, Spare(f));
    }
  }

  lemma EmptyIff(rows: seq<Tree>, i: nat)
    requires i < |rows|
    ensures Size(rows[i]) == 0 <==> forall j: Key :: !Related(rows, i, j)
  {
    if rows[i].Node? {
      assert Related(rows, i, rows[i].key);
    }
  }

  /** A row serialised into a buffer of its size: each of its values, each once. */
  lemma WrittenRow(buf: seq<nat>, t: Tree)
    requires AvlTree.Valid(t) && Mirrors(t) && |buf| == Size(t)
    ensures var w := Written(buf, 0, t);
      && NoRepeats(w)
      && forall j: Key :: Lookup(t, j).Present? <==> j in w
  {
    var w := Written(buf, 0, t);
    PreorderSound(t, -1, KEY_LIMIT);
    PreorderOnce(t, -1, KEY_LIMIT);
    forall i | 0 <= i < |w| ensures w[i] == Preorder(t)[i].key && Lookup(t, Preorder(t)[i].key).Present? {
      WrittenIsPreorder(buf, 0, t, i);
    }
    forall j: Key | Lookup(t, j).Present? ensures j in w {
      var i := PreorderComplete(t, -1, KEY_LIMIT, j);
      assert w[i] == j;
    }
  }
}
