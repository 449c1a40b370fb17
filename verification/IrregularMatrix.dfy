/** The edge matrix of src/hvr_irregular_matrix.cpp: one AVL tree a row, all
    rows drawing on one node pool, edges packed into a word as in
    inc/hvr_common.h. */
module IrregularMatrix {
  import opened AvlTree
  import opened AvlPool
  import opened AvlForest
  import opened Sets
  import opened Wrappers

  const TOP_BIT_61: nat := 0x2000_0000_0000_0000
  const TOP_BIT_62: nat := 0x4000_0000_0000_0000

  /** A vertex identifier that `construct_edge_info` accepts: top three bits clear. */
  type VertexId = v: nat | v < TOP_BIT_61

  datatype EdgeType = NO_EDGE | DIRECTED_IN | DIRECTED_OUT | BIDIRECTIONAL
  {
    function Code(): nat {
      match this case NO_EDGE => 0 case DIRECTED_IN => 1 case DIRECTED_OUT => 2 case BIDIRECTIONAL => 3
    }
  }

  datatype CreateType = IMPLICIT_EDGE | EXPLICIT_EDGE
  {
    function Code(): nat {
      match this case IMPLICIT_EDGE => 0 case EXPLICIT_EDGE => 1
    }
  }

  datatype Edge = Edge(kind: EdgeType, creation: CreateType)

  /** `construct_edge_info` */
  function ConstructEdgeInfo(v: VertexId, e: EdgeType, c: CreateType): nat {
    v + c.Code() * TOP_BIT_61 + e.Code() * TOP_BIT_62
  }

  /** `EDGE_INFO_EDGE` */
  function EdgeInfoEdge(info: nat): EdgeType {
    var code := (info / TOP_BIT_62) % 4;
    if code == 0 then NO_EDGE else if code == 1 then DIRECTED_IN
    else if code == 2 then DIRECTED_OUT else BIDIRECTIONAL
  }

  /** `EDGE_INFO_CREATION`: the mask keeps bit 61 above the vertex bits. */
  function EdgeInfoCreation(info: nat): CreateType {
    if (info / TOP_BIT_61) % 2 == 0 then IMPLICIT_EDGE else EXPLICIT_EDGE
  }

  /** `EDGE_INFO_VERTEX` */
  function EdgeInfoVertex(info: nat): VertexId {
    info % TOP_BIT_61
  }

  /** The three fields of a packed edge can all be read back. */
  lemma EdgeInfoRoundTrip(v: VertexId, e: EdgeType, c: CreateType)
    ensures var info := ConstructEdgeInfo(v, e, c);
      && info < 4 * TOP_BIT_62
      && EdgeInfoVertex(info) == v && EdgeInfoEdge(info) == e && EdgeInfoCreation(info) == c
  {
    var info := ConstructEdgeInfo(v, e, c);
    assert info == v + (c.Code() + 2 * e.Code()) * TOP_BIT_61;
    assert info / TOP_BIT_61 == c.Code() + 2 * e.Code();
    assert info == (v + c.Code() * TOP_BIT_61) + e.Code() * TOP_BIT_62;
    assert info / TOP_BIT_62 == e.Code();
  }

  /** The `uint32_t` tree key a 64-bit column index is narrowed to. */
  function ColumnKey(j: VertexId): Key {
    j % KEY_LIMIT
  }

  /** What a row holds at column `j`. */
  function RowEdge(t: Tree, j: VertexId): Option<Edge> {
    match Lookup(t, ColumnKey(j))
    case Absent => None
    case Present(_, info) => Some(Edge(EdgeInfoEdge(info), EdgeInfoCreation(info)))
  }

  datatype SetResult = OutOfNodes | Stored

  class Matrix {
    const edges: array<int>
    const allocator: NodeAllocator
    var nedges: nat
    /** The row trees. */
    ghost var rows: seq<Tree>

    ghost predicate Valid()
      reads this, edges, allocator, allocator.mem
    {
      && allocator.Valid()
      && Forest(allocator.mem[..], edges[..], rows, allocator.free)
      && nedges == TotalSize(rows) == allocator.n_reserved
    }

    constructor (nvertices: nat, pool_size: nat)
      requires pool_size > 0
      ensures Valid() && fresh(edges) && fresh(allocator) && fresh(allocator.mem)
      ensures |rows| == nvertices && nedges == 0
      ensures forall i :: 0 <= i < nvertices ==> rows[i] == Nil
    {
      edges := new int[nvertices](_ => NNIL);
      allocator := new NodeAllocator(pool_size);
      nedges := 0;
      rows := seq(nvertices, _ => Nil);
      new;
      NoRows(rows);
    }

    /** `hvr_irr_matrix_get` */
    method Get(i: nat, j: VertexId) returns (r: Option<Edge>)
      requires Valid() && i < |rows|
      ensures r == RowEdge(rows[i], j)
    {
      var found := allocator.Find(edges[i], ColumnKey(j), rows[i]);
      if found != NNIL {
        var info := allocator.mem[found].value;
        r := Some(Edge(EdgeInfoEdge(info), EdgeInfoCreation(info)));
      } else {
        r := None;
      }
    }

    /** Row `i` has been rebuilt in the pool; store its root and its count. */
    ghost predicate Rebuilt(m: seq<Rec>, f: seq<nat>, i: nat, root: int, t: Tree)
      reads this, allocator, allocator.mem
    {
      && i < |rows|
      && allocator.Owns(root, t) && AvlTree.Valid(t)
      && SameOutside(m, allocator.mem[..], Ids(rows[i]) + Elements(f))
      && Ids(t) <= Ids(rows[i]) + Elements(f)
      && (forall p <- allocator.free :: p in f || p in Ids(rows[i]))
      && allocator.n_reserved == TotalSize(rows) - Size(rows[i]) + Size(t)
    }

    method StoreRow(i: nat, root: int, delta: int, ghost m: seq<Rec>, ghost f: seq<nat>, ghost t: Tree)
      requires Forest(m, edges[..], rows, f) && nedges == TotalSize(rows)
      requires Rebuilt(m, f, i, root, t)
      requires delta == Size(t) - Size(rows[i])
      modifies this, edges
      ensures Valid() && rows == old(rows)[i := t] && nedges == old(nedges) + delta
    {
      ReplaceRow(m, allocator.mem[..], edges[..], rows, f, allocator.free, i, root, t);
      TotalSizeUpdate(rows, i, t);
      ghost var roots := edges[..];
      edges[i] := root;
      assert edges[..] == roots[i := root];
      nedges := nedges + delta;
      rows := rows[i := t];
    }

    /** `hvr_irr_matrix_set` */
    method Set(i: nat, j: VertexId, e: EdgeType, c: CreateType) returns (r: SetResult)
      requires Valid() && i < |rows|
      modifies this, edges, allocator, allocator.mem
      ensures r.OutOfNodes? <==> RowEdge(old(rows)[i], j).None? && e != NO_EDGE && old(allocator.free) == []
      ensures Valid()
      ensures r.OutOfNodes? ==> rows == old(rows)
      ensures r.Stored? ==> rows == old(rows)[i := RowAfterSet(old(rows)[i], j, e, c, Spare(old(allocator.free)))]
    {
      var key := ColumnKey(j);
      var found := allocator.Find(edges[i], key, rows[i]);
      r := Stored;
      if found == NNIL {
        if e == NO_EDGE {
          assert rows == rows[i := rows[i]];
          return;
        }
        r := AddEdge(i, key, ConstructEdgeInfo(j, e, c));
      } else if e == NO_EDGE {
        DropEdge(i, key);
      } else {
        OverwriteEdge(i, found, key, ConstructEdgeInfo(j, e, c));
      }
    }

    method AddEdge(i: nat, key: Key, info: nat) returns (r: SetResult)
      requires Valid() && i < |rows| && Lookup(rows[i], key).Absent?
      modifies this, edges, allocator, allocator.mem
      ensures Valid()
      ensures r.OutOfNodes? <==> old(allocator.free) == []
      ensures rows == if r.OutOfNodes? then old(rows)
        else old(rows)[i := AvlTree.Insert(old(rows)[i], key, info, Spare(old(allocator.free)))]
    {
      ghost var m, f, row := allocator.mem[..], allocator.free, rows[i];
      RowFacts(m, edges[..], rows, f, i);
      var ins := allocator.Insert(edges[i], key, info, row);
      if ins.Exhausted? {
        return OutOfNodes;
      }
      assert f[0] in f;
      InsertTheorem(row, key, info, f[0]);
      StoreRow(i, ins.root, 1, m, f, AvlTree.Insert(row, key, info, f[0]));
      r := Stored;
    }

    method DropEdge(i: nat, key: Key)
      requires Valid() && i < |rows| && Lookup(rows[i], key).Present?
      modifies this, edges, allocator, allocator.mem
      ensures Valid() && rows == old(rows)[i := AvlTree.Delete(old(rows)[i], key)]
    {
      ghost var m, f, row := allocator.mem[..], allocator.free, rows[i];
      RowFacts(m, edges[..], rows, f, i);
      var up, success := allocator.Delete(edges[i], key, row, -1, KEY_LIMIT);
      DeleteTheorem(row, key);
      StoreRow(i, up, -1, m, f, AvlTree.Delete(row, key));
    }

    method OverwriteEdge(i: nat, found: int, key: Key, info: nat)
      requires Valid() && i < |rows|
      requires Lookup(rows[i], key).Present? && found == Lookup(rows[i], key).id
      requires 0 < found < allocator.mem.Length
      modifies this, edges, allocator, allocator.mem
      ensures Valid() && rows == old(rows)[i := Assign(old(rows)[i], key, info)]
    {
      ghost var m, f, row := allocator.mem[..], allocator.free, rows[i];
      RowFacts(m, edges[..], rows, f, i);
      LookupIds(row, key);
      allocator.Store(edges[i], found, key, info, row);
      AssignRefines(row, key, info, -1, KEY_LIMIT);
      StoreRow(i, edges[i], 0, m, f, Assign(row, key, info));
    }

    /** `hvr_irr_matrix_row_len` */
    method RowLen(i: nat) returns (n: nat)
      requires Valid() && i < |rows|
      ensures n == Size(rows[i])
    {
      n := allocator.CountNodes(edges[i], rows[i]);
    }

    /** `hvr_irr_matrix_linearize`; `hvr_avl_serialize` asserts the room. */
    method Linearize(i: nat, out_vals: array<nat>) returns (n: nat)
      requires Valid() && i < |rows|
      requires Size(rows[i]) <= out_vals.Length
      modifies out_vals
      ensures n == Size(rows[i]) && out_vals[..] == Written(old(out_vals[..]), 0, rows[i])
      ensures Valid()
    {
      n := allocator.Serialize(edges[i], out_vals, 0, rows[i]);
    }
  }

  /** The row tree `hvr_irr_matrix_set` leaves. */
  function RowAfterSet(row: Tree, j: VertexId, e: EdgeType, c: CreateType, spare: nat): Tree {
    var key := ColumnKey(j);
    if Lookup(row, key).Absent? then
      if e == NO_EDGE then row else AvlTree.Insert(row, key, ConstructEdgeInfo(j, e, c), spare)
    else
      if e == NO_EDGE then AvlTree.Delete(row, key) else Assign(row, key, ConstructEdgeInfo(j, e, c))
  }

  /** A set is a point update of the row, as a map from narrowed columns to edges. */
  lemma SetRefines(row: Tree, j: VertexId, e: EdgeType, c: CreateType, spare: nat, k: VertexId)
    requires AvlTree.Valid(row) && spare !in Ids(row)
    ensures AvlTree.Valid(RowAfterSet(row, j, e, c, spare))
    ensures RowEdge(RowAfterSet(row, j, e, c, spare), k) ==
      if k % 0x1_0000_0000 != j % 0x1_0000_0000 then RowEdge(row, k)
      else if e == NO_EDGE then None else Some(Edge(e, c))
  {
    var key, info := ColumnKey(j), ConstructEdgeInfo(j, e, c);
    EdgeInfoRoundTrip(j, e, c);
    InsertTheorem(row, key, info, spare);
    DeleteTheorem(row, key);
    AssignRefines(row, key, info, -1, KEY_LIMIT);
  }

  /** Setting one column leaves what another reports alone, for every row and
      every edge, exactly when the two columns differ in their low 32 bits. */
  lemma ColumnsIndependentIff(j: VertexId, k: VertexId)
    ensures j % 0x1_0000_0000 != k % 0x1_0000_0000 <==>
      forall row: Tree, e: EdgeType, c: CreateType, spare: nat ::
        AvlTree.Valid(row) && spare !in Ids(row) ==>
          RowEdge(RowAfterSet(row, j, e, c, spare), k) == RowEdge(row, k)
  {
    if ColumnKey(j) != ColumnKey(k) {
      forall row: Tree, e: EdgeType, c: CreateType, spare: nat | AvlTree.Valid(row) && spare !in Ids(row)
        ensures RowEdge(RowAfterSet(row, j, e, c, spare), k) == RowEdge(row, k)
      {
        SetRefines(row, j, e, c, spare, k);
      }
    } else {
      SetRefines(Nil, j, DIRECTED_IN, IMPLICIT_EDGE, 1, k);
      assert AvlTree.Valid(Nil) && 1 !in Ids(Nil);
      assert RowEdge(RowAfterSet(Nil, j, DIRECTED_IN, IMPLICIT_EDGE, 1), k) != RowEdge(Nil, k);
    }
  }

  /** Two columns 2^32 apart are one column to the matrix. */
  lemma ColumnsAlias()
    ensures RowEdge(RowAfterSet(Nil, 0, BIDIRECTIONAL, EXPLICIT_EDGE, 1), 0x1_0000_0000)
         == Some(Edge(BIDIRECTIONAL, EXPLICIT_EDGE))
  {
    SetRefines(Nil, 0, BIDIRECTIONAL, EXPLICIT_EDGE, 1, KEY_LIMIT);
  }

  /** Every record of the pool is free or in exactly one row. */
  lemma RecordsAccountedFor(x: Matrix, p: nat)
    requires x.Valid() && 0 < p <= x.allocator.pool_size
    ensures p in x.allocator.free || exists i :: 0 <= i < |x.rows| && p in Ids(x.rows[i])
    ensures forall i :: 0 <= i < |x.rows| && p in Ids(x.rows[i]) ==>
      p !in x.allocator.free && forall k :: 0 <= k < |x.rows| && k != i ==> p !in Ids(x.rows[k])
  {
    var a := x.allocator;
    PoolPartition(a.mem[..], a.head, x.edges[..], x.rows, a.free, p);
  }

  /** Linearising writes each edge of the row into the buffer exactly once. */
  lemma LinearizeListsRow(buf: seq<nat>, row: Tree, k: Key)
    requires AvlTree.Valid(row) && Size(row) <= |buf|
    ensures forall i :: 0 <= i < Size(row) ==> Written(buf, 0, row)[i] == Preorder(row)[i].value
    ensures forall i :: Size(row) <= i < |buf| ==> Written(buf, 0, row)[i] == buf[i]
    ensures Lookup(row, k).Present? ==>
      exists i :: 0 <= i < Size(row) && Preorder(row)[i].key == k
        && Written(buf, 0, row)[i] == Lookup(row, k).value
        && forall i' :: 0 <= i' < Size(row) && i' != i ==> Preorder(row)[i'].key != k
  {
    forall i | 0 <= i < Size(row) ensures Written(buf, 0, row)[i] == Preorder(row)[i].value {
      WrittenIsPreorder(buf, 0, row, i);
    }
    forall i | Size(row) <= i < |buf| ensures Written(buf, 0, row)[i] == buf[i] {
      WrittenOutside(buf, 0, row, i);
    }
    if Lookup(row, k).Present? {
      var i := PreorderComplete(row, -1, KEY_LIMIT, k);
      PreorderSound(row, -1, KEY_LIMIT);
      PreorderOnce(row, -1, KEY_LIMIT);
    }
  }
}
