/** The lists of vertices by partition of src/hvr_partition_list.cpp: each list's links
    run through the vertices, its head is in a map from partitions. The map is that of
    module `HvrMap`, here the finite map it refines. */
module PartitionList {
  import opened IntrusiveList
  import opened Sets

  /** `hvr_map_get` of a head */
  function Head(heads: map<nat, nat>, p: nat): int {
    if p in heads then heads[p] else NULL
  }

  /** Every partition's list is linked from its head in the map; no vertex is in two. */
  ghost predicate ListsOk(next: seq<int>, prev: seq<int>, heads: map<nat, nat>, lists: seq<seq<nat>>) {
    && (forall p :: p in heads ==> p < |lists|)
    && (forall p {:trigger ListOk(next, prev, Head(heads, p), lists[p])} :: 0 <= p < |lists| ==>
          ListOk(next, prev, Head(heads, p), lists[p]))
    && (forall p, q {:trigger Apart(lists, p, q)} :: 0 <= p < |lists| && 0 <= q < |lists| && p != q ==>
          Apart(lists, p, q))
  }

  ghost predicate Apart(lists: seq<seq<nat>>, p: nat, q: nat) {
    p < |lists| && q < |lists| && forall x :: x in lists[p] ==> x !in lists[q]
  }

  predicate Listed(lists: seq<seq<nat>>, n: nat) {
    exists p :: 0 <= p < |lists| && n in lists[p]
  }

  /** One list has been relinked; its elements were in it, or are `n`, which was in none. */
  lemma ListReplaced(next: seq<int>, prev: seq<int>, heads: map<nat, nat>, lists: seq<seq<nat>>,
                     next': seq<int>, prev': seq<int>, heads': map<nat, nat>, p: nat, list: seq<nat>, n: nat)
    requires ListsOk(next, prev, heads, lists) && p < |lists|
    requires ListOk(next', prev', Head(heads', p), list)
    requires forall q :: q != p ==> Head(heads', q) == Head(heads, q)
    requires SameOthers(next, prev, next', prev', lists[p], n)
    requires n in lists[p] || !Listed(lists, n)
    requires forall x :: x in list ==> x in lists[p] || x == n
    ensures ListsOk(next', prev', heads', lists[p := list])
  {
    forall q | 0 <= q < |lists| && q != p
      ensures ListOk(next', prev', Head(heads', q), lists[q])
      ensures Apart(lists[p := list], p, q) && Apart(lists[p := list], q, p)
    {
      assert ListOk(next, prev, Head(heads, q), lists[q]) && Apart(lists, q, p) && Apart(lists, p, q);
      OtherListKept(next, prev, Head(heads, q), lists[q], next', prev', lists[p], n);
    }
    var lists' := lists[p := list];
    forall q, r | 0 <= q < |lists| && 0 <= r < |lists| && q != r ensures Apart(lists', q, r) {
      if q != p && r != p {
        assert Apart(lists, q, r);
      }
    }
    forall q | q in heads' ensures q < |lists| {
      assert q != p ==> Head(heads', q) == Head(heads, q);
    }
  }

  class PartitionList {
    const n_partitions: nat
    /** `next_in_partition` and `prev_in_partition` of every vertex. */
    var next: seq<int>
    var prev: seq<int>
    var heads: map<nat, nat>
    ghost var lists: seq<seq<nat>>

    ghost predicate Valid()
      reads this
    {
      |lists| == n_partitions && |next| == |prev| && ListsOk(next, prev, heads, lists)
    }

    /** `hvr_partition_list_init`, over `vertices` vertices. */
    constructor (n_partitions: nat, vertices: nat)
      ensures Valid() && this.n_partitions == n_partitions && |next| == vertices
      ensures lists == seq(n_partitions, _ => [])
    {
      this.n_partitions := n_partitions;
      next := seq(vertices, _ => NULL);
      prev := seq(vertices, _ => NULL);
      heads := map[];
      lists := seq(n_partitions, _ => []);
    }

    /** `prepend_to_partition_list_helper` */
    method Prepend(curr: nat, partition: nat)
      requires Valid() && partition < n_partitions && curr < |next| && !Listed(lists, curr)
      modifies this
      ensures Valid() && |next| == old(|next|)
      ensures lists == old(lists)[partition := [curr] + old(lists)[partition]]
    {
      var head := Head(heads, partition);
      assert ListOk(next, prev, head, lists[partition]) by {
        assert ListOk(next, prev, Head(heads, partition), lists[partition]);
      }
      var next', prev', head' := IntrusiveList.Prepend(next, prev, head, curr, lists[partition]);
      ListReplaced(next, prev, heads, lists, next', prev', heads[partition := curr], partition,
                   [curr] + lists[partition], curr);
      next, prev := next', prev';
      heads := heads[partition := curr];
      lists := lists[partition := [curr] + lists[partition]];
    }

    /** `remove_from_partition_list_helper`; its assertions on the head hold. */
    method Remove(vert: nat, partition: nat)
      requires Valid() && partition < n_partitions && vert in lists[partition]
      modifies this
      ensures Valid() && |next| == old(|next|)
      ensures lists == old(lists)[partition := Without(old(lists)[partition], vert)]
    {
      ghost var list := lists[partition];
      assert ListOk(next, prev, Head(heads, partition), list);
      ghost var k := WithoutAt(list, vert);
      assert LinkAt(next, prev, list, k);
      assert k > 0 ==> LinkAt(next, prev, list, k - 1);
      assert k + 1 < |list| ==> LinkAt(next, prev, list, k + 1);
      var next', prev', heads' := next, prev, heads;
      if next[vert] != NULL && prev[vert] != NULL {
        next' := next[prev[vert] := next[vert]];
        prev' := prev[next[vert] := prev[vert]];
      } else if next[vert] != NULL {
        var head := Head(heads, partition);
        assert head == vert;
        var new_head := next[head];
        prev' := prev[new_head := NULL];
        heads' := heads[partition := new_head];
      } else if prev[vert] != NULL {
        next' := next[prev[vert] := NULL];
      } else {
        assert Head(heads, partition) == vert;
        heads' := heads - {partition};
      }
      Bypassed(next, prev, list, next', prev', vert, k);
      assert Head(heads', partition) == At(Without(list, vert), 0);
      ListReplaced(next, prev, heads, lists, next', prev', heads', partition, Without(list, vert), vert);
      next, prev, heads := next', prev', heads';
      lists := lists[partition := Without(list, vert)];
    }

    /** `update_partition_list_membership`, the new partition already worked out. */
    method UpdateMembership(curr: nat, old_partition: nat, new_partition: nat)
      requires Valid() && old_partition < n_partitions && new_partition < n_partitions
      requires curr in lists[old_partition]
      modifies this
      ensures Valid() && |next| == old(|next|)
      ensures lists == if old_partition == new_partition then old(lists) else
        old(lists)[old_partition := Without(old(lists)[old_partition], curr)]
                  [new_partition := [curr] + old(lists)[new_partition]]
    {
      if new_partition != old_partition {
        assert ListOk(next, prev, Head(heads, old_partition), lists[old_partition]);
        InRange(next, prev, Head(heads, old_partition), lists[old_partition], curr);
        RemovedNowhere(next, prev, heads, lists, old_partition, curr);
        Remove(curr, old_partition);
        Prepend(curr, new_partition);
      }
    }
  }

  /** A vertex taken out of its list is in none. */
  lemma RemovedNowhere(next: seq<int>, prev: seq<int>, heads: map<nat, nat>, lists: seq<seq<nat>>, p: nat, n: nat)
    requires ListsOk(next, prev, heads, lists) && p < |lists| && n in lists[p]
    ensures !Listed(lists[p := Without(lists[p], n)], n)
  {
    assert ListOk(next, prev, Head(heads, p), lists[p]);
    WithoutMembers(lists[p], n);
    forall q | 0 <= q < |lists| && q != p ensures n !in lists[q] {
      assert Apart(lists, p, q);
    }
  }

  /** Walking a list from the mapped head meets exactly the partition's vertices. */
  lemma {:induction false} WalkMeets(next: seq<int>, prev: seq<int>, heads: map<nat, nat>, lists: seq<seq<nat>>, p: nat, i: nat)
    requires ListsOk(next, prev, heads, lists) && p < |lists| && i <= |lists[p]|
    ensures Walk(next, Head(heads, p), i) == At(lists[p], i)
  {
    assert ListOk(next, prev, Head(heads, p), lists[p]);
    if i > 0 {
      WalkMeets(next, prev, heads, lists, p, i - 1);
      assert LinkAt(next, prev, lists[p], i - 1);
    }
  }

  /** The node `i` links on from `n`. */
  function Walk(next: seq<int>, n: int, i: nat): int {
    if i == 0 then n else
      var m := Walk(next, n, i - 1);
      if 0 <= m < |next| then next[m] else NULL
  }
}
