/** Doubly linked lists threaded through the nodes of a pool: the list helpers of
    inc/hvr_vertex_cache.h, which src/hvr_partition_list.cpp repeats. Nodes are named
    by their index in the pool, `next` and `prev` are the link fields of all nodes. */
module IntrusiveList {
  import opened Sets

  const NULL: int := -1

  function At(list: seq<nat>, i: int): int {
    if 0 <= i < |list| then list[i] else NULL
  }

  ghost predicate LinkAt(next: seq<int>, prev: seq<int>, list: seq<nat>, i: nat) {
    && i < |list| && list[i] < |next| == |prev|
    && next[list[i]] == At(list, i + 1) && prev[list[i]] == At(list, i - 1)
  }

  /** The links from `head` on spell out `list`, forwards and backwards. */
  ghost predicate ListOk(next: seq<int>, prev: seq<int>, head: int, list: seq<nat>) {
    && |next| == |prev| && head == At(list, 0) && NoRepeats(list)
    && forall i {:trigger LinkAt(next, prev, list, i)} :: 0 <= i < |list| ==> LinkAt(next, prev, list, i)
  }

  predicate Unlinked(next: seq<int>, prev: seq<int>, n: nat)
    requires n < |next| == |prev|
  {
    next[n] == NULL && prev[n] == NULL
  }

  /** The links of nodes that are neither in `list` nor `n` are as they were. */
  ghost predicate SameOthers(next: seq<int>, prev: seq<int>, next': seq<int>, prev': seq<int>, list: seq<nat>, n: nat) {
    && |next'| == |next| && |prev'| == |prev|
    && (forall x {:trigger next'[x]} :: 0 <= x < |next| && x != n && x !in list ==> next'[x] == next[x])
    && (forall x {:trigger prev'[x]} :: 0 <= x < |prev| && x != n && x !in list ==> prev'[x] == prev[x])
  }

  lemma InRange(next: seq<int>, prev: seq<int>, head: int, list: seq<nat>, n: nat)
    requires ListOk(next, prev, head, list) && n in list
    ensures n < |next|
  {
    var i :| 0 <= i < |list| && list[i] == n;
    assert LinkAt(next, prev, list, i);
  }

  /** `local_neighbor_list_contains`, `locals_list_contains`: linked either way, or alone at
      the head, is being in the list, for a node whose links are clear when it is not. */
  lemma MemberIff(next: seq<int>, prev: seq<int>, head: int, list: seq<nat>, n: nat)
    requires ListOk(next, prev, head, list) && n < |next|
    requires n !in list ==> Unlinked(next, prev, n)
    ensures n in list <==> next[n] != NULL || prev[n] != NULL || head == n
  {
    if i :| 0 <= i < |list| && list[i] == n {
      assert LinkAt(next, prev, list, i);
    }
  }

  /** Another list through the same link fields does not notice. */
  lemma OtherListKept(next: seq<int>, prev: seq<int>, head: int, other: seq<nat>,
                      next': seq<int>, prev': seq<int>, list: seq<nat>, n: nat)
    requires ListOk(next, prev, head, other) && SameOthers(next, prev, next', prev', list, n)
    requires n !in other && forall x <- other :: x !in list
    ensures ListOk(next', prev', head, other)
  {
    forall i | 0 <= i < |other| ensures LinkAt(next', prev', other, i) {
      assert LinkAt(next, prev, other, i);
    }
  }

  /** `hvr_vertex_cache_add_to_local_neighbor_list` and its likes, for a node not in the list. */
  method Prepend(next: seq<int>, prev: seq<int>, head: int, n: nat, ghost list: seq<nat>)
    returns (next': seq<int>, prev': seq<int>, head': int)
    requires ListOk(next, prev, head, list) && n < |next| && n !in list
    ensures ListOk(next', prev', head', [n] + list)
    ensures SameOthers(next, prev, next', prev', list, n)
  {
    prev' := prev;
    if head != NULL {
      InRange(next, prev, head, list, list[0]);
      prev' := prev'[head := n];
    }
    next' := next[n := head];
    prev' := prev'[n := NULL];
    head' := n;
    forall i | 0 <= i < |list| + 1 ensures LinkAt(next', prev', [n] + list, i) {
      if i > 0 {
        assert LinkAt(next, prev, list, i - 1);
      }
    }
  }

  /** `linked_list_remove_helper`; its assertions hold. */
  method RemoveHelper(next: seq<int>, prev: seq<int>, head: int, n: nat, ghost list: seq<nat>)
    returns (next': seq<int>, prev': seq<int>, head': int)
    requires ListOk(next, prev, head, list) && n in list
    ensures ListOk(next', prev', head', Without(list, n))
    ensures SameOthers(next, prev, next', prev', list, n)
    ensures n < |next'|
  {
    ghost var k := WithoutAt(list, n);
    assert LinkAt(next, prev, list, k);
    assert k > 0 ==> LinkAt(next, prev, list, k - 1);
    assert k + 1 < |list| ==> LinkAt(next, prev, list, k + 1);
    next', prev', head' := next, prev, head;
    if prev[n] == NULL && next[n] == NULL {
      assert head == n;
      head' := NULL;
    } else if prev[n] == NULL {
      assert head == n;
      prev' := prev[next[n] := NULL];
      head' := next[n];
    } else if next[n] == NULL {
      next' := next[prev[n] := NULL];
    } else {
      assert next[prev[n]] == n == prev[next[n]];
      next' := next[prev[n] := next[n]];
      prev' := prev[next[n] := prev[n]];
    }
    Bypassed(next, prev, list, next', prev', n, k);
  }

  /** A list with its element `k` passed over, in both directions. */
  lemma Bypassed(next: seq<int>, prev: seq<int>, list: seq<nat>, next': seq<int>, prev': seq<int>, n: nat, k: nat)
    requires k < |list| && list[k] == n && NoRepeats(list) && |next'| == |next| == |prev| == |prev'|
    requires forall i {:trigger LinkAt(next, prev, list, i)} :: 0 <= i < |list| ==> LinkAt(next, prev, list, i)
    requires k > 0 ==> list[k - 1] < |next| && next'[list[k - 1]] == At(list, k + 1)
    requires k + 1 < |list| ==> list[k + 1] < |next| && prev'[list[k + 1]] == At(list, k - 1)
    requires forall x :: 0 <= x < |next| && (k == 0 || x != list[k - 1]) ==> next'[x] == next[x]
    requires forall x :: 0 <= x < |next| && (k + 1 == |list| || x != list[k + 1]) ==> prev'[x] == prev[x]
    ensures ListOk(next', prev', At(list[..k] + list[k + 1..], 0), list[..k] + list[k + 1..])
  {
    var rest := list[..k] + list[k + 1..];
    forall i | 0 <= i < |rest| ensures LinkAt(next', prev', rest, i) {
      assert LinkAt(next, prev, list, if i < k then i else i + 1);
    }
  }
}
