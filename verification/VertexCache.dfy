/** The vertex cache of src/hvr_vertex_cache.cpp and inc/hvr_vertex_cache.h: a pool of
    nodes, a map from vertex identifiers to nodes, and two lists through the nodes. The
    pool chains its unused nodes through the link fields of the local-neighbor list. */
module VertexCache {
  import opened IntrusiveList
  import opened Sets

  const PE_SHIFT: nat := 0x1_0000_0000

  /** `VERTEX_ID_PE` */
  function Pe(id: nat): nat {
    id / PE_SHIFT
  }

  /** `construct_vertex_id`, for an offset of 32 bits */
  function ConstructVertexId(pe: nat, offset: nat): nat {
    pe * PE_SHIFT + offset
  }

  lemma ConstructedPe(pe: nat, offset: nat)
    requires offset < PE_SHIFT
    ensures Pe(ConstructVertexId(pe, offset)) == pe
  {
  }

  ghost predicate PoolAt(next: seq<int>, pool: seq<nat>, i: nat) {
    i < |pool| && pool[i] < |next| && next[pool[i]] == At(pool, i + 1)
  }

  /** The unused nodes, chained forwards from `pool_head`. */
  ghost predicate PoolOk(next: seq<int>, pool_head: int, pool: seq<nat>) {
    && pool_head == At(pool, 0) && NoRepeats(pool)
    && forall i {:trigger PoolAt(next, pool, i)} :: 0 <= i < |pool| ==> PoolAt(next, pool, i)
  }

  /** A live node is in the map under its own identifier; a local one has the identifier
      made from its place. */
  ghost predicate LiveOk(n: nat, vert_id: seq<nat>, cache_map: map<nat, nat>, pe: nat) {
    && n < |vert_id| && vert_id[n] in cache_map && cache_map[vert_id[n]] == n
    && (Pe(vert_id[n]) == pe ==> vert_id[n] == ConstructVertexId(pe, n))
  }

  ghost predicate MapOk(id: nat, vert_id: seq<nat>, cache_map: map<nat, nat>, live: set<nat>) {
    id in cache_map && cache_map[id] in live && cache_map[id] < |vert_id| && vert_id[cache_map[id]] == id
  }

  /** A list holds live nodes only, and live nodes outside it have clear links. */
  ghost predicate LiveList(next: seq<int>, prev: seq<int>, head: int, list: seq<nat>, live: set<nat>) {
    && ListOk(next, prev, head, list)
    && (forall n <- list :: n in live)
    && (forall n <- live :: n < |next| && (n !in list ==> Unlinked(next, prev, n)))
  }

  /** The live nodes that are local (or, with `local` false, mirrored). */
  ghost function Kind(live: set<nat>, vert_id: seq<nat>, pe: nat, local: bool): set<nat> {
    set n | n in live && n < |vert_id| && (Pe(vert_id[n]) == pe) == local
  }

  /** Every node is in exactly one of pool and map. */
  ghost predicate NodesOk(vert_id: seq<nat>, cache_map: map<nat, nat>, pe: nat, pool: seq<nat>, live: set<nat>) {
    && (forall n :: 0 <= n < |vert_id| ==> (n in pool <==> n !in live))
    && (forall n {:trigger LiveOk(n, vert_id, cache_map, pe)} :: n in live ==> LiveOk(n, vert_id, cache_map, pe))
    && (forall id {:trigger MapOk(id, vert_id, cache_map, live)} :: id in cache_map ==>
          MapOk(id, vert_id, cache_map, live))
  }

  lemma PoolKept(next: seq<int>, next': seq<int>, pool_head: int, pool: seq<nat>)
    requires PoolOk(next, pool_head, pool) && |next'| == |next|
    requires forall n :: n in pool && n < |next| ==> next'[n] == next[n]
    ensures PoolOk(next', pool_head, pool)
  {
    forall i | 0 <= i < |pool| ensures PoolAt(next', pool, i) {
      assert PoolAt(next, pool, i);
    }
  }

  lemma PoolRest(next: seq<int>, next': seq<int>, pool: seq<nat>)
    requires PoolOk(next, At(pool, 0), pool) && pool != [] && |next'| == |next|
    requires forall x :: 0 <= x < |next| && x != pool[0] ==> next'[x] == next[x]
    ensures PoolOk(next', At(pool, 1), pool[1..])
    ensures pool[0] < |next| && next[pool[0]] == At(pool, 1)
  {
    assert PoolAt(next, pool, 0);
    forall i | 0 <= i < |pool| - 1 ensures PoolAt(next', pool[1..], i) {
      assert PoolAt(next, pool, i + 1);
    }
  }

  lemma PoolMore(next: seq<int>, pool_head: int, pool: seq<nat>, n: nat)
    requires PoolOk(next, pool_head, pool) && n < |next| && n !in pool
    ensures PoolOk(next[n := pool_head], n, [n] + pool)
  {
    var next', more := next[n := pool_head], [n] + pool;
    forall i | 0 <= i < |more| ensures PoolAt(next', more, i) {
      if i > 0 {
        assert PoolAt(next, pool, i - 1);
      }
    }
  }

  /** Giving the links of a node outside the list any values does not disturb it. */
  lemma ListUndisturbed(next: seq<int>, prev: seq<int>, head: int, list: seq<nat>, live: set<nat>,
                        next': seq<int>, prev': seq<int>, live': set<nat>)
    requires LiveList(next, prev, head, list, live)
    requires |next'| == |next| == |prev'|
    requires forall n :: n in live * live' && n < |next| ==> next'[n] == next[n] && prev'[n] == prev[n]
    requires forall n <- list :: n in live'
    requires forall n <- live' :: n < |next| && (n !in live ==> Unlinked(next', prev', n))
    ensures LiveList(next', prev', head, list, live')
  {
    forall i | 0 <= i < |list| ensures LinkAt(next', prev', list, i) {
      assert LinkAt(next, prev, list, i);
    }
  }

  lemma PoolHeadIn(next: seq<int>, pool_head: int, pool: seq<nat>)
    requires PoolOk(next, pool_head, pool) && pool != []
    ensures pool[0] in pool && pool_head == pool[0] < |next| && next[pool_head] == At(pool, 1)
    ensures At(pool, 1) != NULL ==> At(pool, 1) in pool && At(pool, 1) < |next|
  {
    assert PoolAt(next, pool, 0);
    assert |pool| > 1 ==> PoolAt(next, pool, 1) && pool[1] in pool;
  }

  function ClearPrev(prev: seq<int>, head: int, value: int): (r: seq<int>)
    ensures |r| == |prev|
  {
    if 0 <= head < |prev| then prev[head := value] else prev
  }

  /** Links of the first pool node cleared, those of the new first node's back link too. */
  lemma EnterLinks(next: seq<int>, prev: seq<int>, head: int, list: seq<nat>, pool_head: int, pool: seq<nat>,
                   live: set<nat>)
    requires LiveList(next, prev, head, list, live) && PoolOk(next, pool_head, pool) && pool != []
    requires forall n :: n in pool ==> n !in live
    ensures 0 <= pool_head < |next| == |prev|
    ensures PoolOk(next[pool_head := NULL], At(pool, 1), pool[1..])
    ensures LiveList(next[pool_head := NULL], ClearPrev(prev, At(pool, 1), NULL)[pool_head := NULL], head, list,
                     live + {pool[0]})
  {
    PoolHeadIn(next, pool_head, pool);
    var next', prev' := next[pool_head := NULL], ClearPrev(prev, At(pool, 1), NULL)[pool_head := NULL];
    PoolRest(next, next', pool);
    ListUndisturbed(next, prev, head, list, live, next', prev', live + {pool[0]});
  }

  lemma EnterLocals(next: seq<int>, prev: seq<int>, head: int, list: seq<nat>, n: nat, live: set<nat>)
    requires LiveList(next, prev, head, list, live) && n !in live && n < |next|
    ensures LiveList(next[n := NULL], prev[n := NULL], head, list, live + {n})
  {
    ListUndisturbed(next, prev, head, list, live, next[n := NULL], prev[n := NULL], live + {n});
  }

  lemma LeaveLinks(next: seq<int>, prev: seq<int>, head: int, list: seq<nat>, pool_head: int, pool: seq<nat>,
                   live: set<nat>, n: nat)
    requires LiveList(next, prev, head, list, live) && PoolOk(next, pool_head, pool)
    requires (forall x :: x in pool ==> x !in live) && n in live && n !in list
    ensures n < |next| == |prev| && (pool_head != NULL ==> 0 <= pool_head < |prev|)
    ensures PoolOk(next[n := pool_head], n, [n] + pool)
    ensures LiveList(next[n := pool_head], ClearPrev(prev, pool_head, n)[n := NULL], head, list, live - {n})
  {
    if pool != [] { PoolHeadIn(next, pool_head, pool); }
    PoolMore(next, pool_head, pool, n);
    ListUndisturbed(next, prev, head, list, live, next[n := pool_head], ClearPrev(prev, pool_head, n)[n := NULL],
                    live - {n});
  }

  lemma LeaveLocals(next: seq<int>, prev: seq<int>, head: int, list: seq<nat>, live: set<nat>, n: nat)
    requires LiveList(next, prev, head, list, live) && n !in list
    ensures LiveList(next, prev, head, list, live - {n})
  {
  }

  /** A node of the pool comes alive under an identifier the map did not have. */
  lemma NodeEnters(vert_id: seq<nat>, cache_map: map<nat, nat>, pe: nat, pool: seq<nat>, live: set<nat>, id: nat)
    requires NodesOk(vert_id, cache_map, pe, pool, live) && NoRepeats(pool)
    requires pool != [] && pool[0] < |vert_id| && id !in cache_map
    requires Pe(id) == pe ==> id == ConstructVertexId(pe, pool[0])
    ensures NodesOk(vert_id[pool[0] := id], cache_map[id := pool[0]], pe, pool[1..], live + {pool[0]})
  {
    var n := pool[0];
    var vert_id', map', live' := vert_id[n := id], cache_map[id := n], live + {n};
    forall x | x in live' ensures LiveOk(x, vert_id', map', pe) {
      assert x != n ==> LiveOk(x, vert_id, cache_map, pe);
    }
    forall k | k in map' ensures MapOk(k, vert_id', map', live') {
      assert k != id ==> MapOk(k, vert_id, cache_map, live);
    }
    forall x | 0 <= x < |vert_id| ensures x in pool[1..] <==> x !in live' {
      assert x in pool <==> x !in live;
      assert pool == [n] + pool[1..];
    }
  }

  lemma NodeLeaves(vert_id: seq<nat>, cache_map: map<nat, nat>, pe: nat, pool: seq<nat>, live: set<nat>, n: nat)
    requires NodesOk(vert_id, cache_map, pe, pool, live) && n in live && n < |vert_id|
    ensures NodesOk(vert_id, cache_map - {vert_id[n]}, pe, [n] + pool, live - {n})
  {
    var map', live' := cache_map - {vert_id[n]}, live - {n};
    assert LiveOk(n, vert_id, cache_map, pe);
    forall x | x in live' ensures LiveOk(x, vert_id, map', pe) {
      assert LiveOk(x, vert_id, cache_map, pe);
    }
    forall k | k in map' ensures MapOk(k, vert_id, map', live') {
      assert MapOk(k, vert_id, cache_map, live);
    }
  }

  /** The identifier a new local vertex gets is not in the map, so adding it cannot fail. */
  lemma FreshIdentifier(vert_id: seq<nat>, cache_map: map<nat, nat>, pe: nat, pool: seq<nat>, live: set<nat>, n: nat)
    requires NodesOk(vert_id, cache_map, pe, pool, live) && n in pool && n < |vert_id| <= PE_SHIFT
    ensures ConstructVertexId(pe, n) !in cache_map
  {
    var id := ConstructVertexId(pe, n);
    ConstructedPe(pe, n);
    assert id in cache_map ==> MapOk(id, vert_id, cache_map, live);
    assert id in cache_map ==> LiveOk(cache_map[id], vert_id, cache_map, pe);
  }

  lemma KindEnters(live: set<nat>, vert_id: seq<nat>, pe: nat, local: bool, n: nat, id: nat)
    requires n !in live && n < |vert_id|
    ensures |Kind(live + {n}, vert_id[n := id], pe, local)|
         == |Kind(live, vert_id, pe, local)| + if (Pe(id) == pe) == local then 1 else 0
  {
    assert Kind(live + {n}, vert_id[n := id], pe, local)
        == Kind(live, vert_id, pe, local) + if (Pe(id) == pe) == local then {n} else {};
  }

  lemma KindLeaves(live: set<nat>, vert_id: seq<nat>, pe: nat, local: bool, n: nat)
    requires n in live && n < |vert_id|
    ensures |Kind(live, vert_id, pe, local)|
         == |Kind(live - {n}, vert_id, pe, local)| + if (Pe(vert_id[n]) == pe) == local then 1 else 0
  {
    assert Kind(live, vert_id, pe, local)
        == Kind(live - {n}, vert_id, pe, local) + if (Pe(vert_id[n]) == pe) == local then {n} else {};
  }

  class VertexCache {
    const pool_size: nat
    const pe: nat
    var vert_id: seq<nat>
    var neighbors_next: seq<int>
    var neighbors_prev: seq<int>
    var locals_next: seq<int>
    var locals_prev: seq<int>
    var neighbors_head: int
    var locals_head: int
    var pool_head: int
    var cache_map: map<nat, nat>
    var n_cached: nat
    var n_local: nat
    ghost var pool: seq<nat>
    ghost var live: set<nat>
    ghost var neighbors: seq<nat>
    ghost var locals: seq<nat>

    ghost predicate LinksOk()
      reads this
    {
      && |neighbors_next| == |locals_next| == pool_size
      && PoolOk(neighbors_next, pool_head, pool)
      && (forall n <- pool :: n !in live)
      && LiveList(neighbors_next, neighbors_prev, neighbors_head, neighbors, live)
      && LiveList(locals_next, locals_prev, locals_head, locals, live)
    }

    /** All but the two counters. */
    ghost predicate StateOk()
      reads this
    {
      LinksOk() && |vert_id| == pool_size <= PE_SHIFT && NodesOk(vert_id, cache_map, pe, pool, live)
    }

    ghost predicate Valid()
      reads this
    {
      && StateOk()
      && n_local == |Kind(live, vert_id, pe, true)|
      && n_cached == |Kind(live, vert_id, pe, false)|
    }

    /** `hvr_vertex_cache_init` */
    constructor (n_preallocs: nat, pe: nat)
      requires 0 < n_preallocs <= PE_SHIFT
      ensures Valid() && pool_size == n_preallocs && this.pe == pe
      ensures cache_map == map[] && |pool| == n_preallocs
    {
      pool_size, this.pe := n_preallocs, pe;
      vert_id := seq(n_preallocs, _ => 0);
      neighbors_next := seq(n_preallocs, i => if i + 1 < n_preallocs then i + 1 else NULL);
      neighbors_prev := seq(n_preallocs, i => i - 1);
      locals_next := seq(n_preallocs, _ => NULL);
      locals_prev := seq(n_preallocs, _ => NULL);
      neighbors_head, locals_head, pool_head := NULL, NULL, 0;
      cache_map := map[];
      n_cached, n_local := 0, 0;
      pool := seq(n_preallocs, i => i);
      live, neighbors, locals := {}, [], [];
      new;
      forall n | 0 <= n < n_preallocs ensures n in pool {
        assert pool[n] == n;
      }
      assert Kind(live, vert_id, pe, true) == {} == Kind(live, vert_id, pe, false);
    }

    /** `hvr_vertex_cache_lookup` */
    method Lookup(vert: nat) returns (node: int)
      requires Valid()
      ensures node != NULL <==> vert in cache_map
      ensures node != NULL ==> node in live && 0 <= node < pool_size && vert_id[node] == vert
    {
      node := NULL;
      if vert in cache_map {
        assert MapOk(vert, vert_id, cache_map, live);
        node := cache_map[vert];
      }
    }

    /** `allocate_node_from_pool` on a non-empty pool; clearing the node clears all its links. */
    method AllocateNode() returns (node: nat)
      requires LinksOk() && pool != []
      modifies this`neighbors_next, this`neighbors_prev, this`locals_next, this`locals_prev, this`pool_head
      modifies this`pool, this`live
      ensures LinksOk()
      ensures node == old(pool)[0] && pool == old(pool)[1..]
      ensures node !in old(live) && live == old(live) + {node} && node < pool_size
    {
      PoolHeadIn(neighbors_next, pool_head, pool);
      EnterLinks(neighbors_next, neighbors_prev, neighbors_head, neighbors, pool_head, pool, live);
      EnterLocals(locals_next, locals_prev, locals_head, locals, pool_head, live);
      node := pool_head;
      pool_head := neighbors_next[node];
      if pool_head != NULL {
        neighbors_prev := neighbors_prev[pool_head := NULL];
      }
      neighbors_next, neighbors_prev := neighbors_next[node := NULL], neighbors_prev[node := NULL];
      locals_next, locals_prev := locals_next[node := NULL], locals_prev[node := NULL];
      live, pool := live + {node}, pool[1..];
    }

    /** A node is allocated, given its identifier and entered in the map. */
    method Enter(id: nat) returns (node: nat)
      requires StateOk() && pool != [] && id !in cache_map
      requires Pe(id) == pe ==> id == ConstructVertexId(pe, pool[0])
      modifies this`neighbors_next, this`neighbors_prev, this`locals_next, this`locals_prev, this`pool_head
      modifies this`pool, this`live, this`vert_id, this`cache_map
      ensures StateOk()
      ensures node == old(pool)[0] && pool == old(pool)[1..]
      ensures node !in old(live) && live == old(live) + {node}
      ensures node < old(|vert_id|) && vert_id == old(vert_id)[node := id]
      ensures cache_map == old(cache_map)[id := node]
    {
      PoolHeadIn(neighbors_next, pool_head, pool);
      NodeEnters(vert_id, cache_map, pe, pool, live, id);
      node := AllocateNode();
      vert_id := vert_id[node := id];
      cache_map := cache_map[id := node];
    }

    /** `hvr_vertex_cache_reserve` on the PE that owns the cache; `!ok` is the abort. */
    method Reserve() returns (ok: bool, node: nat)
      requires Valid()
      modifies this
      ensures Valid() && ok == (old(pool) != [])
      ensures neighbors == old(neighbors) && locals == old(locals)
      ensures if ok
        then node in old(pool) && live == old(live) + {node}
          && cache_map == old(cache_map)[pe * 0x1_0000_0000 + node := node]
        else live == old(live) && cache_map == old(cache_map)
    {
      if pool_head == NULL {
        return false, 0;
      }
      assert PoolAt(neighbors_next, pool, 0) && pool[0] in pool;
      var id := ConstructVertexId(pe, pool_head);
      FreshIdentifier(vert_id, cache_map, pe, pool, live, pool_head);
      ConstructedPe(pe, pool_head);
      KindEnters(live, vert_id, pe, true, pool_head, id);
      KindEnters(live, vert_id, pe, false, pool_head, id);
      node := Enter(id);
      n_local := n_local + 1;
      ok := true;
    }

    /** `hvr_vertex_cache_add`, for a vertex of another PE that the cache does not have. */
    method Add(id: nat) returns (ok: bool, node: nat)
      requires Valid() && Pe(id) != pe && id !in cache_map
      modifies this
      ensures Valid() && ok == (old(pool) != [])
      ensures neighbors == old(neighbors) && locals == old(locals)
      ensures if ok
        then node in old(pool) && live == old(live) + {node} && cache_map == old(cache_map)[id := node]
        else live == old(live) && cache_map == old(cache_map)
    {
      if pool_head == NULL {
        return false, 0;
      }
      assert PoolAt(neighbors_next, pool, 0) && pool[0] in pool;
      KindEnters(live, vert_id, pe, true, pool_head, id);
      KindEnters(live, vert_id, pe, false, pool_head, id);
      node := Enter(id);
      n_cached := n_cached + 1;
      ok := true;
    }

    /** `hvr_vertex_cache_remove_from_local_neighbor_list` */
    method RemoveNeighbor(node: nat)
      requires StateOk() && node in live
      modifies this`neighbors_next, this`neighbors_prev, this`neighbors_head, this`neighbors
      ensures StateOk() && neighbors == Without(old(neighbors), node)
      ensures node !in neighbors
    {
      MemberIff(neighbors_next, neighbors_prev, neighbors_head, neighbors, node);
      WithoutMembers(neighbors, node);
      if neighbors_next[node] != NULL || neighbors_prev[node] != NULL || neighbors_head == node {
        var next, prev, head := RemoveHelper(neighbors_next, neighbors_prev, neighbors_head, node, neighbors);
        RemovedList(neighbors_next, neighbors_prev, neighbors_head, neighbors, live, node, next, prev, head);
        next := next[node := NULL];
        prev := prev[node := NULL];
        PoolApart(vert_id, cache_map, pe, pool, live, neighbors);
        PoolKept(neighbors_next, next, pool_head, pool);
        neighbors_next, neighbors_prev, neighbors_head := next, prev, head;
        neighbors := Without(neighbors, node);
      } else {
        WithoutAbsent(neighbors, node);
      }
    }

    /** `hvr_vertex_cache_add_to_local_neighbor_list` */
    method AddNeighbor(node: nat)
      requires Valid() && node in live
      modifies this`neighbors_next, this`neighbors_prev, this`neighbors_head, this`neighbors
      ensures Valid()
      ensures neighbors == if node in old(neighbors) then old(neighbors) else [node] + old(neighbors)
    {
      MemberIff(neighbors_next, neighbors_prev, neighbors_head, neighbors, node);
      if !(neighbors_next[node] != NULL || neighbors_prev[node] != NULL || neighbors_head == node) {
        var next, prev, head := IntrusiveList.Prepend(neighbors_next, neighbors_prev, neighbors_head, node, neighbors);
        PoolApart(vert_id, cache_map, pe, pool, live, neighbors);
        PoolKept(neighbors_next, next, pool_head, pool);
        neighbors_next, neighbors_prev, neighbors_head := next, prev, head;
        neighbors := [node] + neighbors;
      }
    }

    /** `hvr_vertex_cache_remove_from_locals_list` */
    method RemoveLocal(node: nat)
      requires Valid() && node in live
      modifies this`locals_next, this`locals_prev, this`locals_head, this`locals
      ensures Valid() && locals == Without(old(locals), node) && node !in locals
    {
      MemberIff(locals_next, locals_prev, locals_head, locals, node);
      WithoutMembers(locals, node);
      if locals_next[node] != NULL || locals_prev[node] != NULL || locals_head == node {
        var next, prev, head := RemoveHelper(locals_next, locals_prev, locals_head, node, locals);
        RemovedList(locals_next, locals_prev, locals_head, locals, live, node, next, prev, head);
        next := next[node := NULL];
        prev := prev[node := NULL];
        locals_next, locals_prev, locals_head := next, prev, head;
        locals := Without(locals, node);
      } else {
        WithoutAbsent(locals, node);
      }
    }

    /** `hvr_vertex_cache_add_to_locals_list` */
    method AddLocal(node: nat)
      requires Valid() && node in live
      modifies this`locals_next, this`locals_prev, this`locals_head, this`locals
      ensures Valid()
      ensures locals == if node in old(locals) then old(locals) else [node] + old(locals)
    {
      MemberIff(locals_next, locals_prev, locals_head, locals, node);
      if !(locals_next[node] != NULL || locals_prev[node] != NULL || locals_head == node) {
        var next, prev, head := IntrusiveList.Prepend(locals_next, locals_prev, locals_head, node, locals);
        locals_next, locals_prev, locals_head := next, prev, head;
        locals := [node] + locals;
      }
    }

    /** The pool takes back a node that is in neither list. */
    method ReleaseNode(node: nat)
      requires LinksOk() && node in live && node !in neighbors && node !in locals
      modifies this`neighbors_next, this`neighbors_prev, this`pool_head, this`pool, this`live
      ensures LinksOk() && pool == [node] + old(pool) && live == old(live) - {node}
    {
      LeaveLinks(neighbors_next, neighbors_prev, neighbors_head, neighbors, pool_head, pool, live, node);
      LeaveLocals(locals_next, locals_prev, locals_head, locals, live, node);
      if pool_head != NULL {
        neighbors_prev := neighbors_prev[pool_head := node];
      }
      neighbors_next := neighbors_next[node := pool_head];
      neighbors_prev := neighbors_prev[node := NULL];
      pool_head := node;
      pool := [node] + pool;
      live := live - {node};
    }

    /** `hvr_vertex_cache_delete`; `hvr_vertex_delete_impl` has taken a local vertex out of
        the locals list before it calls this. */
    method Delete(node: nat)
      requires Valid() && node in live && node !in locals
      modifies this
      ensures Valid()
      ensures node < old(|vert_id|) && cache_map == old(cache_map) - {old(vert_id)[node]}
      ensures live == old(live) - {node} && pool == [node] + old(pool)
      ensures neighbors == Without(old(neighbors), node) && locals == old(locals)
    {
      var is_local := Pe(vert_id[node]) == pe;
      KindLeaves(live, vert_id, pe, true, node);
      KindLeaves(live, vert_id, pe, false, node);
      RemoveNeighbor(node);
      NodeLeaves(vert_id, cache_map, pe, pool, live, node);
      cache_map := cache_map - {vert_id[node]};
      ReleaseNode(node);
      if is_local {
        n_local := n_local - 1;
      } else {
        n_cached := n_cached - 1;
      }
    }
  }

  lemma PoolApart(vert_id: seq<nat>, cache_map: map<nat, nat>, pe: nat, pool: seq<nat>, live: set<nat>, list: seq<nat>)
    requires NodesOk(vert_id, cache_map, pe, pool, live) && forall n <- list :: n in live
    ensures forall n :: n in pool && n < |vert_id| ==> n !in list && n !in live
  {
  }

  /** A node taken out of a list and its links cleared. */
  lemma RemovedList(next: seq<int>, prev: seq<int>, head: int, list: seq<nat>, live: set<nat>, n: nat,
                    next': seq<int>, prev': seq<int>, head': int)
    requires LiveList(next, prev, head, list, live) && n in list && n < |next| == |next'| == |prev'|
    requires ListOk(next', prev', head', Without(list, n)) && SameOthers(next, prev, next', prev', list, n)
    ensures LiveList(next'[n := NULL], prev'[n := NULL], head', Without(list, n), live)
  {
    var rest, next'', prev'' := Without(list, n), next'[n := NULL], prev'[n := NULL];
    WithoutMembers(list, n);
    forall i | 0 <= i < |rest| ensures LinkAt(next'', prev'', rest, i) {
      assert LinkAt(next', prev', rest, i) && rest[i] in rest;
    }
  }

  /** The link test decides membership of both lists, for every live node. */
  lemma MembershipTests(c: VertexCache, node: nat)
    requires c.Valid() && node in c.live
    ensures node < c.pool_size && |c.neighbors_prev| == |c.locals_prev| == c.pool_size
    ensures node in c.neighbors <==>
      c.neighbors_next[node] != NULL || c.neighbors_prev[node] != NULL || c.neighbors_head == node
    ensures node in c.locals <==>
      c.locals_next[node] != NULL || c.locals_prev[node] != NULL || c.locals_head == node
  {
    MemberIff(c.neighbors_next, c.neighbors_prev, c.neighbors_head, c.neighbors, node);
    MemberIff(c.locals_next, c.locals_prev, c.locals_head, c.locals, node);
  }

  lemma KindsSplit(live: set<nat>, vert_id: seq<nat>, pe: nat)
    requires forall n <- live :: n < |vert_id|
    ensures |Kind(live, vert_id, pe, true)| + |Kind(live, vert_id, pe, false)| == |live|
  {
    var local, mirrored := Kind(live, vert_id, pe, true), Kind(live, vert_id, pe, false);
    assert local !! mirrored && local + mirrored == live;
  }

  lemma PoolAndLive(pool: seq<nat>, live: set<nat>, size: nat)
    requires NoRepeats(pool) && (forall n <- pool :: n < size) && (forall n <- live :: n < size)
    requires forall n :: 0 <= n < size ==> (n in pool <==> n !in live)
    ensures |pool| + |live| == size
  {
    ElementsSize(pool);
    assert Elements(pool) !! live && Elements(pool) + live == Below(size);
  }

  lemma PoolInRange(next: seq<int>, pool_head: int, pool: seq<nat>, n: nat)
    requires PoolOk(next, pool_head, pool) && n in pool
    ensures n < |next|
  {
    var i :| 0 <= i < |pool| && pool[i] == n;
    assert PoolAt(next, pool, i);
  }

  /** No node is lost: pool, local and mirrored vertices make up the pool's size. */
  lemma NodesConserved(c: VertexCache)
    requires c.Valid()
    ensures |c.pool| + c.n_local + c.n_cached == c.pool_size
  {
    forall n <- c.pool ensures n < c.pool_size {
      PoolInRange(c.neighbors_next, c.pool_head, c.pool, n);
    }
    KindsSplit(c.live, c.vert_id, c.pe);
    PoolAndLive(c.pool, c.live, c.pool_size);
  }
}
