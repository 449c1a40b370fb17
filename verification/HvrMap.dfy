/** The segmented hash map of src/hvr_map.cpp and inc/hvr_map.h.

    A bucket is a chain of fixed-size segments taken from a preallocated pool. Keys are
    appended to the last segment of the chain; the moment a segment fills it is sorted,
    and from then on it is searched by bisection until a removal leaves it one short,
    after which it is scanned. Segments are named by their index in the pool. */
module HvrMap {
  const SEG_SIZE: nat := 128
  const BUCKETS: nat := 16384

  function Bucket(key: nat): (b: nat)
    ensures b < BUCKETS
  {
    key % BUCKETS
  }

  datatype Entry = Entry(key: nat, data: nat)

  // ----- rearranging a segment -----

  ghost predicate Ascending(a: seq<Entry>, low: int, high: int)
    requires 0 <= low && high <= |a|
  {
    forall i, j :: low <= i < j < high ==> a[i].key <= a[j].key
  }

  /** No two of the first `n` entries share a key. */
  ghost predicate Distinct(a: seq<Entry>, n: nat)
    requires n <= |a|
  {
    forall i, j :: 0 <= i < j < n ==> a[i].key != a[j].key
  }

  /** The same pairs stand in the stretch from `low` up to `high`, in any order. */
  ghost predicate SameBag(a: seq<Entry>, b: seq<Entry>, low: nat, high: nat)
    requires low <= high <= |a| == |b|
  {
    multiset(a[low..high]) == multiset(b[low..high])
  }

  ghost predicate SameElsewhere(a: seq<Entry>, b: seq<Entry>, low: nat, high: nat)
    requires |a| == |b|
  {
    forall k :: 0 <= k < |a| && (k < low || high <= k) ==> a[k] == b[k]
  }

  /** `b` is `a` with the entries from `low` up to `high` rearranged, pair by pair. */
  ghost predicate Rearranged(a: seq<Entry>, b: seq<Entry>, low: nat, high: nat) {
    low <= high <= |a| == |b| && SameElsewhere(a, b, low, high) && SameBag(a, b, low, high)
  }

  ghost predicate Swapped(a: seq<Entry>, b: seq<Entry>, i: nat, j: nat)
    requires i < |a| && j < |a|
  {
    |b| == |a| && b[i] == a[j] && b[j] == a[i] && forall k :: 0 <= k < |a| && k != i && k != j ==> b[k] == a[k]
  }

  lemma SwapRearranges(a: seq<Entry>, b: seq<Entry>, i: nat, j: nat, low: nat, high: nat)
    requires low <= i < high <= |a| && low <= j < high && Swapped(a, b, i, j)
    ensures Rearranged(a, b, low, high)
  {
    var s := a[low..high];
    var t := s[i - low := s[j - low]];
    assert b[low..high] == t[j - low := s[i - low]];
  }

  lemma RearrangedTwice(a: seq<Entry>, b: seq<Entry>, c: seq<Entry>, low: nat, high: nat)
    requires Rearranged(a, b, low, high) && Rearranged(b, c, low, high)
    ensures Rearranged(a, c, low, high)
  {
  }

  lemma RearrangedWiden(a: seq<Entry>, b: seq<Entry>, low: nat, high: nat, l: nat, h: nat)
    requires Rearranged(a, b, low, high)
    requires l <= low && high <= h <= |a|
    ensures Rearranged(a, b, l, h)
  {
    assert a[l..low] == b[l..low];
    assert a[high..h] == b[high..h];
    assert a[l..h] == a[l..low] + a[low..high] + a[high..h];
    assert b[l..h] == b[l..low] + b[low..high] + b[high..h];
  }

  /** Each entry of the stretch came from the stretch. */
  lemma RearrangedComes(a: seq<Entry>, b: seq<Entry>, low: nat, high: nat, i: nat)
    returns (j: nat)
    requires Rearranged(a, b, low, high)
    requires low <= i < high
    ensures low <= j < high && a[j] == b[i]
  {
    assert b[low..high][i - low] in multiset(b[low..high]);
    assert b[i] in a[low..high];
    var k :| 0 <= k < high - low && a[low..high][k] == b[i];
    j := low + k;
  }

  /** An entry whose key occurs once occurs once. */
  lemma OccursOnce(a: seq<Entry>, i: nat)
    requires i < |a| && Distinct(a, |a|)
    ensures multiset(a)[a[i]] == 1
  {
    assert a == a[..i] + [a[i]] + a[i + 1..];
    assert a[i] !in a[..i] && a[i] !in a[i + 1..];
  }

  lemma OccursTwice(a: seq<Entry>, i: nat, j: nat)
    requires i < j < |a| && a[i] == a[j]
    ensures multiset(a)[a[i]] >= 2
  {
    assert a == a[..j] + a[j..];
    assert a[..j][i] == a[i] && a[j..][0] == a[i];
    assert a[i] in multiset(a[..j]) && a[i] in multiset(a[j..]);
  }

  /** Rearranging a whole segment keeps its keys distinct. */
  lemma DistinctKept(a: seq<Entry>, b: seq<Entry>)
    requires Rearranged(a, b, 0, |a|) && Distinct(a, |a|)
    ensures Distinct(b, |b|)
  {
    assert a[0..|a|] == a && b[0..|a|] == b;
    forall i, j | 0 <= i < j < |b| ensures b[i].key != b[j].key {
      if b[i].key == b[j].key {
        var p := RearrangedComes(a, b, 0, |a|, i);
        var q := RearrangedComes(a, b, 0, |a|, j);
        assert p == q;
        OccursOnce(a, p);
        OccursTwice(b, i, j);
        assert false;
      }
    }
  }

  ghost function Row(keys: array2<nat>, data: array2<nat>, s: nat): (r: seq<Entry>)
    requires s < keys.Length0 == data.Length0 && keys.Length1 == data.Length1
    reads keys, data
    ensures |r| == keys.Length1
    ensures forall i :: 0 <= i < |r| ==> r[i] == Entry(keys[s, i], data[s, i])
  {
    seq(keys.Length1, i requires 0 <= i < keys.Length1 reads keys, data => Entry(keys[s, i], data[s, i]))
  }

  /** What the sorting methods may touch: two distinct buffers of one shape. */
  ghost predicate Buffers(keys: array2<nat>, data: array2<nat>, s: nat) {
    keys != data && s < keys.Length0 == data.Length0 && keys.Length1 == data.Length1
  }

  /** Midway through a partition of `was`: up to `i` below the pivot, from there to `j` not. */
  ghost predicate Parted(was: seq<Entry>, a: seq<Entry>, low: nat, i: int, j: nat, high: nat, pivot: nat) {
    && Rearranged(was, a, low, high + 1)
    && low - 1 <= i < j <= high < |a|
    && a[high].key == pivot
    && (forall k :: low <= k <= i ==> a[k].key < pivot)
    && (forall k :: i < k < j ==> a[k].key >= pivot)
  }

  lemma PartedSwap(was: seq<Entry>, a: seq<Entry>, b: seq<Entry>, low: nat, i: int, j: nat, high: nat, pivot: nat)
    requires Parted(was, a, low, i, j, high, pivot) && low <= j < high && a[j].key < pivot
    requires Swapped(a, b, i + 1, j)
    ensures Parted(was, b, low, i + 1, j + 1, high, pivot)
  {
    SwapRearranges(a, b, i + 1, j, low, high + 1);
    RearrangedTwice(was, a, b, low, high + 1);
    assert b[high] == a[high];
  }

  lemma PartedSkip(was: seq<Entry>, a: seq<Entry>, low: nat, i: int, j: nat, high: nat, pivot: nat)
    requires Parted(was, a, low, i, j, high, pivot) && low <= j < high && a[j].key >= pivot
    ensures Parted(was, a, low, i, j + 1, high, pivot)
  {
  }

  /** Around `p` the stretch holds smaller keys before and the others after. */
  ghost predicate Around(a: seq<Entry>, low: nat, p: nat, high: nat) {
    && low <= p <= high < |a|
    && (forall k :: low <= k < p ==> a[k].key < a[p].key)
    && (forall k :: p < k <= high ==> a[k].key >= a[p].key)
  }

  lemma PartedEnds(was: seq<Entry>, a: seq<Entry>, b: seq<Entry>, low: nat, i: int, high: nat, pivot: nat)
    requires Parted(was, a, low, i, high, high, pivot) && low <= high
    requires Swapped(a, b, i + 1, high)
    ensures Rearranged(was, b, low, high + 1) && Around(b, low, i + 1, high)
  {
    SwapRearranges(a, b, i + 1, high, low, high + 1);
    RearrangedTwice(was, a, b, low, high + 1);
  }

  ghost predicate OtherRows(keys: array2<nat>, data: array2<nat>, s: nat, rows: seq<seq<Entry>>)
    requires Buffers(keys, data, s) && |rows| == keys.Length0
    reads keys, data
  {
    forall t :: 0 <= t < |rows| && t != s ==> Row(keys, data, t) == rows[t]
  }

  method Swap(keys: array2<nat>, data: array2<nat>, s: nat, i: nat, j: nat, ghost rows: seq<seq<Entry>>)
    requires Buffers(keys, data, s) && i < keys.Length1 && j < keys.Length1
    requires |rows| == keys.Length0 && OtherRows(keys, data, s, rows)
    modifies keys, data
    ensures Swapped(old(Row(keys, data, s)), Row(keys, data, s), i, j)
    ensures OtherRows(keys, data, s, rows)
  {
    keys[s, i], keys[s, j] := keys[s, j], keys[s, i];
    data[s, i], data[s, j] := data[s, j], data[s, i];
  }

  method Partition(keys: array2<nat>, data: array2<nat>, s: nat, low: nat, high: nat, ghost rows: seq<seq<Entry>>)
    returns (p: nat)
    requires Buffers(keys, data, s) && low <= high < keys.Length1
    requires |rows| == keys.Length0 && OtherRows(keys, data, s, rows)
    modifies keys, data
    ensures Rearranged(old(Row(keys, data, s)), Row(keys, data, s), low, high + 1)
    ensures Around(Row(keys, data, s), low, p, high)
    ensures OtherRows(keys, data, s, rows)
  {
    ghost var was := Row(keys, data, s);
    ghost var a := was;
    var pivot := keys[s, high];
    var i: int := low - 1;
    for j := low to high
      invariant a == Row(keys, data, s) && Parted(was, a, low, i, j, high, pivot)
      invariant OtherRows(keys, data, s, rows)
    {
      if keys[s, j] < pivot {
        i := i + 1;
        Swap(keys, data, s, i, j, rows);
        PartedSwap(was, a, Row(keys, data, s), low, i - 1, j, high, pivot);
        a := Row(keys, data, s);
      } else {
        PartedSkip(was, a, low, i, j, high, pivot);
      }
    }
    Swap(keys, data, s, i + 1, high, rows);
    PartedEnds(was, a, Row(keys, data, s), low, i, high, pivot);
    p := i + 1;
  }

  lemma HalvesAround(a: seq<Entry>, b: seq<Entry>, c: seq<Entry>, low: nat, p: nat, high: nat, k: nat)
    requires Around(a, low, p, high) && low <= k <= high
    requires Rearranged(a, b, low, p) && Rearranged(b, c, p + 1, high + 1)
    ensures k < p ==> c[k] == b[k] && c[k].key < a[p].key
    ensures k == p ==> c[k] == a[p]
    ensures k > p ==> c[k].key >= a[p].key
  {
    if k <= p {
      assert c[k] == b[k];
      if k < p {
        var j := RearrangedComes(a, b, low, p, k);
      }
    } else {
      var j := RearrangedComes(b, c, p + 1, high + 1, k);
    }
  }

  lemma HalvesOrdered(a: seq<Entry>, b: seq<Entry>, c: seq<Entry>, low: nat, p: nat, high: nat, i: nat, j: nat)
    requires Around(a, low, p, high) && low <= i < j <= high
    requires Rearranged(a, b, low, p) && Ascending(b, low, p)
    requires Rearranged(b, c, p + 1, high + 1) && Ascending(c, p + 1, high + 1)
    ensures c[i].key <= c[j].key
  {
    HalvesAround(a, b, c, low, p, high, i);
    HalvesAround(a, b, c, low, p, high, j);
  }

  /** The two halves of a partitioned stretch, each put in order, make the whole ordered. */
  lemma HalvesAscend(a: seq<Entry>, b: seq<Entry>, c: seq<Entry>, low: nat, p: nat, high: nat)
    requires Around(a, low, p, high)
    requires Rearranged(a, b, low, p) && Ascending(b, low, p)
    requires Rearranged(b, c, p + 1, high + 1) && Ascending(c, p + 1, high + 1)
    ensures Ascending(c, low, high + 1)
  {
    forall i, j | low <= i < j < high + 1 ensures c[i].key <= c[j].key {
      HalvesOrdered(a, b, c, low, p, high, i, j);
    }
  }

  lemma HalvesRearrange(was: seq<Entry>, a: seq<Entry>, b: seq<Entry>, c: seq<Entry>, low: nat, p: nat, high: nat)
    requires low <= p <= high
    requires Rearranged(was, a, low, high + 1)
    requires Rearranged(a, b, low, p) && Rearranged(b, c, p + 1, high + 1)
    ensures Rearranged(was, c, low, high + 1)
  {
    RearrangedWiden(a, b, low, p, low, high + 1);
    RearrangedTwice(was, a, b, low, high + 1);
    RearrangedWiden(b, c, p + 1, high + 1, low, high + 1);
    RearrangedTwice(was, b, c, low, high + 1);
  }

  /** `high` is one below `low` when the stretch is empty. */
  method QuickSort(keys: array2<nat>, data: array2<nat>, s: nat, low: int, high: int, ghost rows: seq<seq<Entry>>)
    requires Buffers(keys, data, s) && 0 <= low && low - 1 <= high < keys.Length1
    requires |rows| == keys.Length0 && OtherRows(keys, data, s, rows)
    modifies keys, data
    ensures Rearranged(old(Row(keys, data, s)), Row(keys, data, s), low, high + 1)
    ensures Ascending(Row(keys, data, s), low, high + 1)
    ensures OtherRows(keys, data, s, rows)
    decreases high - low + 1
  {
    ghost var was := Row(keys, data, s);
    if low < high {
      var p := Partition(keys, data, s, low, high, rows);
      ghost var a := Row(keys, data, s);
      QuickSort(keys, data, s, low, p as int - 1, rows);
      ghost var b := Row(keys, data, s);
      QuickSort(keys, data, s, p + 1, high, rows);
      ghost var c := Row(keys, data, s);
      HalvesAscend(a, b, c, low, p, high);
      HalvesRearrange(was, a, b, c, low, p, high);
    }
  }

  // ----- what a segment holds -----

  /** The entry belongs to segment `s` of bucket `b` and agrees with the map. */
  ghost predicate EntryOk(e: Entry, s: nat, b: nat, at: map<nat, nat>, m: map<nat, nat>) {
    e.key in at && at[e.key] == s && e.key in m && m[e.key] == e.data && Bucket(e.key) == b
  }

  ghost predicate SegmentHolds(row: seq<Entry>, n: nat, s: nat, b: nat, at: map<nat, nat>, m: map<nat, nat>) {
    && n <= SEG_SIZE == |row|
    && (forall i {:trigger row[i]} :: 0 <= i < n ==> EntryOk(row[i], s, b, at, m))
    && Distinct(row, n)
  }

  /** A full segment is in order; with distinct keys, strictly so. */
  ghost predicate SegmentOk(row: seq<Entry>, n: nat, s: nat, b: nat, at: map<nat, nat>, m: map<nat, nat>) {
    SegmentHolds(row, n, s, b, at, m) && (n == SEG_SIZE ==> Ascending(row, 0, n))
  }

  ghost predicate HasKey(row: seq<Entry>, n: nat, key: nat) {
    n <= |row| && exists i :: 0 <= i < n && row[i].key == key
  }

  ghost predicate KeyOk(key: nat, rows: seq<seq<Entry>>, nkeys: seq<nat>, owner: seq<nat>, at: map<nat, nat>)
    requires |rows| == |nkeys| == |owner|
  {
    && key in at && at[key] < |rows| && owner[at[key]] == Bucket(key)
    && HasKey(rows[at[key]], nkeys[at[key]], key)
  }

  /** The segments in the buckets' chains hold exactly the map `m`, key `k` in segment `at[k]`. */
  ghost predicate ContentsOk(rows: seq<seq<Entry>>, nkeys: seq<nat>, owner: seq<nat>,
                             at: map<nat, nat>, m: map<nat, nat>) {
    && |rows| == |nkeys| == |owner|
    && (forall s {:trigger rows[s]} :: 0 <= s < |rows| ==> |rows[s]| == SEG_SIZE)
    && (forall s {:trigger rows[s]} :: 0 <= s < |rows| && owner[s] < BUCKETS ==>
          SegmentOk(rows[s], nkeys[s], s, owner[s], at, m))
    && at.Keys == m.Keys
    && (forall key {:trigger KeyOk(key, rows, nkeys, owner, at)} :: key in at ==> KeyOk(key, rows, nkeys, owner, at))
  }

  /** No key of the map is in two places. */
  lemma KeysUnique(rows: seq<seq<Entry>>, nkeys: seq<nat>, owner: seq<nat>, at: map<nat, nat>, m: map<nat, nat>,
                   s: nat, i: nat, t: nat, j: nat)
    requires ContentsOk(rows, nkeys, owner, at, m)
    requires s < |rows| && owner[s] < BUCKETS && i < nkeys[s] <= |rows[s]|
    requires t < |rows| && owner[t] < BUCKETS && j < nkeys[t] <= |rows[t]|
    requires rows[s][i].key == rows[t][j].key
    ensures s == t && i == j
  {
    assert EntryOk(rows[s][i], s, owner[s], at, m) && EntryOk(rows[t][j], t, owner[t], at, m);
  }

  /** A full segment is strictly sorted, which is what bisection relies on. */
  lemma FullSegmentSorted(rows: seq<seq<Entry>>, nkeys: seq<nat>, owner: seq<nat>, at: map<nat, nat>,
                          m: map<nat, nat>, s: nat, i: nat, j: nat)
    requires ContentsOk(rows, nkeys, owner, at, m)
    requires s < |rows| && owner[s] < BUCKETS && nkeys[s] == SEG_SIZE == |rows[s]| && i < j < SEG_SIZE
    ensures rows[s][i].key < rows[s][j].key
  {
    assert SegmentOk(rows[s], nkeys[s], s, owner[s], at, m);
  }

  /** Sorting a segment that has just filled. */
  lemma SortedSegment(a: seq<Entry>, b: seq<Entry>, s: nat, c: nat, at: map<nat, nat>, m: map<nat, nat>)
    requires SegmentHolds(a, SEG_SIZE, s, c, at, m)
    requires Rearranged(a, b, 0, SEG_SIZE) && Ascending(b, 0, SEG_SIZE)
    ensures SegmentOk(b, SEG_SIZE, s, c, at, m)
  {
    DistinctKept(a, b);
    forall i | 0 <= i < SEG_SIZE ensures EntryOk(b[i], s, c, at, m) {
      var j := RearrangedComes(a, b, 0, SEG_SIZE, i);
    }
  }

  lemma RearrangedBack(a: seq<Entry>, b: seq<Entry>, low: nat, high: nat)
    requires Rearranged(a, b, low, high)
    ensures Rearranged(b, a, low, high)
  {
  }

  lemma SortedHasKey(a: seq<Entry>, b: seq<Entry>, key: nat)
    requires |a| == SEG_SIZE && Rearranged(a, b, 0, SEG_SIZE) && HasKey(a, SEG_SIZE, key)
    ensures HasKey(b, SEG_SIZE, key)
  {
    var i :| 0 <= i < SEG_SIZE && a[i].key == key;
    RearrangedBack(a, b, 0, SEG_SIZE);
    var j := RearrangedComes(b, a, 0, SEG_SIZE, i);
  }

  lemma AppendedSegment(row: seq<Entry>, n: nat, s: nat, at: map<nat, nat>, m: map<nat, nat>, e: Entry)
    requires SegmentHolds(row, n, s, Bucket(e.key), at, m) && n < SEG_SIZE && e.key !in at
    ensures SegmentHolds(row[n := e], n + 1, s, Bucket(e.key), at[e.key := s], m[e.key := e.data])
  {
  }

  lemma SegmentKept(row: seq<Entry>, n: nat, s: nat, b: nat, at: map<nat, nat>, m: map<nat, nat>,
                    key: nat, t: nat, data: nat)
    requires SegmentOk(row, n, s, b, at, m) && key !in at
    ensures SegmentOk(row, n, s, b, at[key := t], m[key := data])
  {
  }

  /** What adding a new key to segment `s` makes of its row: appended, and sorted if that filled it. */
  ghost predicate Added(row: seq<Entry>, n: nat, e: Entry, row': seq<Entry>)
    requires n < |row|
  {
    if n + 1 == |row|
    then Rearranged(row[n := e], row', 0, |row|) && Ascending(row', 0, |row|)
    else row' == row[n := e]
  }

  lemma AddedSegment(row: seq<Entry>, n: nat, s: nat, at: map<nat, nat>, m: map<nat, nat>, e: Entry, row': seq<Entry>)
    requires SegmentOk(row, n, s, Bucket(e.key), at, m) && n < SEG_SIZE && e.key !in at && |row'| == SEG_SIZE
    requires Added(row, n, e, row')
    ensures SegmentOk(row', n + 1, s, Bucket(e.key), at[e.key := s], m[e.key := e.data])
  {
    AppendedSegment(row, n, s, at, m, e);
    if n + 1 == SEG_SIZE {
      SortedSegment(row[n := e], row', s, Bucket(e.key), at[e.key := s], m[e.key := e.data]);
    }
  }

  lemma AddedHasKey(row: seq<Entry>, n: nat, e: Entry, row': seq<Entry>, key: nat)
    requires n < SEG_SIZE == |row| == |row'| && Added(row, n, e, row')
    requires HasKey(row, n, key) || key == e.key
    ensures HasKey(row', n + 1, key)
  {
    var a := row[n := e];
    if key == e.key {
      assert a[n].key == key;
    } else {
      var i :| 0 <= i < n && row[i].key == key;
      assert a[i].key == key;
    }
    if n + 1 == SEG_SIZE {
      SortedHasKey(a, row', key);
    }
  }

  lemma AddedContents(rows: seq<seq<Entry>>, nkeys: seq<nat>, owner: seq<nat>, at: map<nat, nat>, m: map<nat, nat>,
                      s: nat, e: Entry, row': seq<Entry>)
    requires ContentsOk(rows, nkeys, owner, at, m)
    requires s < |rows| && owner[s] == Bucket(e.key) && nkeys[s] < SEG_SIZE && e.key !in m && |row'| == SEG_SIZE
    requires Added(rows[s], nkeys[s], e, row')
    ensures ContentsOk(rows[s := row'], nkeys[s := nkeys[s] + 1], owner, at[e.key := s], m[e.key := e.data])
  {
    AddedSegment(rows[s], nkeys[s], s, at, m, e, row');
    forall t | 0 <= t < |rows| && t != s && owner[t] < BUCKETS
      ensures SegmentOk(rows[t], nkeys[t], t, owner[t], at[e.key := s], m[e.key := e.data])
    {
      SegmentKept(rows[t], nkeys[t], t, owner[t], at, m, e.key, s, e.data);
    }
    var at' := at[e.key := s];
    forall key | key in at'
      ensures KeyOk(key, rows[s := row'], nkeys[s := nkeys[s] + 1], owner, at')
    {
      if key != e.key {
        assert KeyOk(key, rows, nkeys, owner, at);
      }
      if at'[key] == s {
        AddedHasKey(rows[s], nkeys[s], e, row', key);
      }
    }
  }

  /** Removing the key at `i`: the last key of the segment fills the hole. */
  lemma RemovedSegment(row: seq<Entry>, n: nat, s: nat, b: nat, at: map<nat, nat>, m: map<nat, nat>, i: nat)
    requires SegmentOk(row, n, s, b, at, m) && i < n
    ensures SegmentOk(row[i := row[n - 1]], n - 1, s, b, at - {row[i].key}, m - {row[i].key})
  {
  }

  lemma RemovedHasKey(row: seq<Entry>, n: nat, i: nat, key: nat)
    requires i < n && HasKey(row, n, key) && key != row[i].key
    ensures HasKey(row[i := row[n - 1]], n - 1, key)
  {
    var row' := row[i := row[n - 1]];
    var j :| 0 <= j < n && row[j].key == key;
    assert row'[if j == n - 1 then i else j].key == key;
  }

  lemma RemovedElsewhere(row: seq<Entry>, n: nat, s: nat, b: nat, at: map<nat, nat>, m: map<nat, nat>, key: nat)
    requires SegmentOk(row, n, s, b, at, m) && key in at && at[key] != s
    ensures SegmentOk(row, n, s, b, at - {key}, m - {key})
  {
  }

  lemma RemovedContents(rows: seq<seq<Entry>>, nkeys: seq<nat>, owner: seq<nat>, at: map<nat, nat>, m: map<nat, nat>,
                        s: nat, i: nat, key: nat, row': seq<Entry>)
    requires ContentsOk(rows, nkeys, owner, at, m)
    requires s < |rows| && owner[s] < BUCKETS && i < nkeys[s] <= |rows[s]| && key == rows[s][i].key
    requires row' == rows[s][i := rows[s][nkeys[s] - 1]]
    ensures ContentsOk(rows[s := row'], nkeys[s := nkeys[s] - 1], owner, at - {key}, m - {key})
  {
    assert EntryOk(rows[s][i], s, owner[s], at, m);
    RemovedSegment(rows[s], nkeys[s], s, owner[s], at, m, i);
    forall t | 0 <= t < |rows| && t != s && owner[t] < BUCKETS
      ensures SegmentOk(rows[t], nkeys[t], t, owner[t], at - {key}, m - {key})
    {
      RemovedElsewhere(rows[t], nkeys[t], t, owner[t], at, m, key);
    }
    var at' := at - {key};
    forall k | k in at' ensures KeyOk(k, rows[s := row'], nkeys[s := nkeys[s] - 1], owner, at') {
      assert KeyOk(k, rows, nkeys, owner, at);
      if at[k] == s {
        RemovedHasKey(rows[s], nkeys[s], i, k);
      }
    }
  }

  /** A new value for a key already there. */
  lemma ReplacedContents(rows: seq<seq<Entry>>, nkeys: seq<nat>, owner: seq<nat>, at: map<nat, nat>, m: map<nat, nat>,
                         s: nat, i: nat, data: nat)
    requires ContentsOk(rows, nkeys, owner, at, m)
    requires s < |rows| && owner[s] < BUCKETS && i < nkeys[s] <= |rows[s]|
    ensures ContentsOk(rows[s := rows[s][i := Entry(rows[s][i].key, data)]], nkeys, owner,
                       at, m[rows[s][i].key := data])
  {
    var key := rows[s][i].key;
    var row' := rows[s][i := Entry(key, data)];
    var rows' := rows[s := row'];
    var m' := m[key := data];
    assert EntryOk(rows[s][i], s, owner[s], at, m);
    assert m'.Keys == m.Keys;
    forall t | 0 <= t < |rows| && owner[t] < BUCKETS ensures SegmentOk(rows'[t], nkeys[t], t, owner[t], at, m') {
      assert SegmentOk(rows[t], nkeys[t], t, owner[t], at, m);
    }
    forall k | k in at ensures KeyOk(k, rows', nkeys, owner, at) {
      assert KeyOk(k, rows, nkeys, owner, at);
      var j :| 0 <= j < nkeys[at[k]] && rows[at[k]][j].key == k;
      assert rows'[at[k]][j].key == k;
    }
  }

  /** A segment leaves the pool, empty, for bucket `b`. */
  lemma TakenContents(rows: seq<seq<Entry>>, nkeys: seq<nat>, owner: seq<nat>, at: map<nat, nat>, m: map<nat, nat>,
                      s: nat, b: nat)
    requires ContentsOk(rows, nkeys, owner, at, m)
    requires s < |rows| && owner[s] == BUCKETS && b < BUCKETS
    ensures ContentsOk(rows, nkeys[s := 0], owner[s := b], at, m)
  {
    forall k | k in at ensures KeyOk(k, rows, nkeys[s := 0], owner[s := b], at) {
      assert KeyOk(k, rows, nkeys, owner, at);
    }
  }

  // ----- the chains -----

  const NULL: int := -1

  ghost predicate LinkAt(next: seq<int>, chain: seq<nat>, i: nat) {
    && i < |chain| && chain[i] < |next|
    && next[chain[i]] == if i + 1 < |chain| then chain[i + 1] else NULL
  }

  ghost predicate Linked(next: seq<int>, chain: seq<nat>, first: int) {
    && first == (if chain == [] then NULL else chain[0])
    && (forall i {:trigger chain[i]} :: 0 <= i < |chain| ==> chain[i] < |next|)
    && (forall i {:trigger LinkAt(next, chain, i)} :: 0 <= i < |chain| ==> LinkAt(next, chain, i))
  }

  /** Segment `s` stands at place `rank[s]` of chain `c`. */
  ghost predicate StandsIn(s: nat, c: nat, i: nat, owner: seq<nat>, rank: seq<int>) {
    s < |owner| == |rank| && owner[s] == c && rank[s] == i
  }

  ghost predicate StandsSomewhere(s: nat, chains: seq<seq<nat>>, owner: seq<nat>, rank: seq<int>) {
    && s < |owner| == |rank| && owner[s] < |chains|
    && 0 <= rank[s] < |chains[owner[s]]| && chains[owner[s]][rank[s]] == s
  }

  /** Every segment is in exactly one place of one chain: a bucket's, or chain `BUCKETS`, the pool. */
  ghost predicate PlacesOk(chains: seq<seq<nat>>, owner: seq<nat>, rank: seq<int>) {
    && |owner| == |rank| && |chains| == BUCKETS + 1
    && (forall c, i {:trigger StandsIn(chains[c][i], c, i, owner, rank)} :: 0 <= c < |chains| && 0 <= i < |chains[c]| ==>
          StandsIn(chains[c][i], c, i, owner, rank))
    && (forall s {:trigger StandsSomewhere(s, chains, owner, rank)} :: 0 <= s < |owner| ==> StandsSomewhere(s, chains, owner, rank))
  }

  ghost predicate ListsOk(next: seq<int>, buckets: seq<int>, pool: int, chains: seq<seq<nat>>, owner: seq<nat>, rank: seq<int>) {
    && |next| == |owner| && |buckets| == BUCKETS && PlacesOk(chains, owner, rank)
    && (forall b {:trigger Linked(next, chains[b], buckets[b])} :: 0 <= b < BUCKETS ==> Linked(next, chains[b], buckets[b]))
    && Linked(next, chains[BUCKETS], pool)
  }

  ghost predicate TailsOk(tails: seq<int>, chains: seq<seq<nat>>) {
    && |tails| == BUCKETS && |chains| == BUCKETS + 1
    && forall b {:trigger chains[b]} :: 0 <= b < BUCKETS && chains[b] != [] ==> tails[b] == chains[b][|chains[b]| - 1]
  }

  ghost function TakenChains(chains: seq<seq<nat>>, b: nat): seq<seq<nat>>
    requires |chains| == BUCKETS + 1 && chains[BUCKETS] != [] && b < BUCKETS
  {
    chains[BUCKETS := chains[BUCKETS][1..]][b := chains[b] + [chains[BUCKETS][0]]]
  }

  ghost function TakenRank(rank: seq<int>, owner: seq<nat>, s: nat, last: nat): (r: seq<int>)
    requires |rank| == |owner|
    ensures |r| == |rank|
  {
    seq(|rank|, x requires 0 <= x < |rank| =>
      if x == s then last else if owner[x] == BUCKETS then rank[x] - 1 else rank[x])
  }

  lemma LinkedKept(next: seq<int>, next': seq<int>, chain: seq<nat>, first: int)
    requires Linked(next, chain, first) && |next'| == |next|
    requires forall i {:trigger chain[i]} :: 0 <= i < |chain| ==> next'[chain[i]] == next[chain[i]]
    ensures Linked(next', chain, first)
  {
    forall i | 0 <= i < |chain| ensures LinkAt(next', chain, i) {
      assert LinkAt(next, chain, i);
    }
  }

  lemma LinkedRest(next: seq<int>, chain: seq<nat>, first: int)
    requires Linked(next, chain, first) && chain != []
    ensures Linked(next, chain[1..], next[chain[0]])
  {
    var rest := chain[1..];
    assert LinkAt(next, chain, 0);
    forall i | 0 <= i < |rest| ensures LinkAt(next, rest, i) {
      assert LinkAt(next, chain, i + 1);
    }
  }

  /** The link a new segment `s` at the end of `chain` is hung on: the old last one's, or the bucket's. */
  ghost predicate Hung(next: seq<int>, next': seq<int>, chain: seq<nat>, s: nat) {
    && s < |next| == |next'|
    && (forall i {:trigger chain[i]} :: 0 <= i < |chain| ==> chain[i] < |next|)
    && next'[s] == NULL
    && (chain != [] ==> next'[chain[|chain| - 1]] == s)
    && (forall x :: 0 <= x < |next| && x != s && (chain == [] || x != chain[|chain| - 1]) ==> next'[x] == next[x])
  }

  lemma LinkedMore(next: seq<int>, next': seq<int>, chain: seq<nat>, first: int, s: nat, rank: seq<int>)
    requires Linked(next, chain, first) && Hung(next, next', chain, s)
    requires s !in chain && |rank| == |next|
    requires forall i {:trigger chain[i]} :: 0 <= i < |chain| ==> rank[chain[i]] == i
    ensures Linked(next', chain + [s], if chain == [] then s else first)
  {
    var more := chain + [s];
    forall i | 0 <= i < |more| ensures LinkAt(next', more, i) {
      if i < |chain| {
        assert LinkAt(next, chain, i);
        assert rank[chain[i]] == i && rank[chain[|chain| - 1]] == |chain| - 1;
      }
    }
  }

  lemma TakenLinks(next: seq<int>, buckets: seq<int>, pool: int, chains: seq<seq<nat>>, owner: seq<nat>, rank: seq<int>,
                   b: nat, next': seq<int>, c: nat)
    requires ListsOk(next, buckets, pool, chains, owner, rank) && b < BUCKETS && chains[BUCKETS] != []
    requires Hung(next, next', chains[b], chains[BUCKETS][0]) && c <= BUCKETS
    ensures c == BUCKETS ==> Linked(next', chains[c][1..], next[chains[c][0]])
    ensures c == b ==> Linked(next', chains[c] + [chains[BUCKETS][0]],
                              if chains[b] == [] then chains[BUCKETS][0] else buckets[b])
    ensures c < BUCKETS && c != b ==> Linked(next', chains[c], buckets[c])
  {
    var s := chains[BUCKETS][0];
    assert Linked(next, chains[c], if c < BUCKETS then buckets[c] else pool);
    assert StandsIn(s, BUCKETS, 0, owner, rank);
    assert chains[b] != [] ==> StandsIn(chains[b][|chains[b]| - 1], b, |chains[b]| - 1, owner, rank);
    forall i | 0 <= i < |chains[c]| ensures StandsIn(chains[c][i], c, i, owner, rank) {}
    if c == b {
      LinkedMore(next, next', chains[c], buckets[c], s, rank);
    } else if c == BUCKETS {
      LinkedRest(next, chains[c], pool);
      LinkedKept(next, next', chains[c][1..], next[s]);
    } else {
      LinkedKept(next, next', chains[c], buckets[c]);
    }
  }

  lemma TakenPlaces(chains: seq<seq<nat>>, owner: seq<nat>, rank: seq<int>, b: nat,
                    chains': seq<seq<nat>>, owner': seq<nat>, rank': seq<int>)
    requires PlacesOk(chains, owner, rank) && b < BUCKETS && chains[BUCKETS] != []
    requires chains' == TakenChains(chains, b)
    requires chains[BUCKETS][0] < |owner| && owner' == owner[chains[BUCKETS][0] := b]
    requires rank' == TakenRank(rank, owner, chains[BUCKETS][0], |chains[b]|)
    ensures PlacesOk(chains', owner', rank')
  {
    var s := chains[BUCKETS][0];
    assert StandsIn(s, BUCKETS, 0, owner, rank);
    forall c, i | 0 <= c < |chains| && 0 <= i < |chains'[c]| ensures StandsIn(chains'[c][i], c, i, owner', rank') {
      if c == BUCKETS {
        assert StandsIn(chains[c][i + 1], c, i + 1, owner, rank);
      } else if i < |chains[c]| {
        assert StandsIn(chains[c][i], c, i, owner, rank);
      }
    }
    forall x | 0 <= x < |owner| ensures StandsSomewhere(x, chains', owner', rank') {
      assert StandsSomewhere(x, chains, owner, rank);
    }
  }

  lemma TakenLists(next: seq<int>, buckets: seq<int>, pool: int, chains: seq<seq<nat>>, owner: seq<nat>, rank: seq<int>,
                   b: nat, next': seq<int>, buckets': seq<int>, pool': int, chains': seq<seq<nat>>,
                   owner': seq<nat>, rank': seq<int>)
    requires ListsOk(next, buckets, pool, chains, owner, rank) && b < BUCKETS && chains[BUCKETS] != []
    requires Hung(next, next', chains[b], chains[BUCKETS][0]) && pool' == next[chains[BUCKETS][0]]
    requires buckets' == if chains[b] == [] then buckets[b := chains[BUCKETS][0]] else buckets
    requires chains' == TakenChains(chains, b)
    requires owner' == owner[chains[BUCKETS][0] := b]
    requires rank' == TakenRank(rank, owner, chains[BUCKETS][0], |chains[b]|)
    ensures ListsOk(next', buckets', pool', chains', owner', rank')
  {
    forall c | 0 <= c < BUCKETS ensures Linked(next', chains'[c], buckets'[c]) {
      TakenLinks(next, buckets, pool, chains, owner, rank, b, next', c);
    }
    TakenLinks(next, buckets, pool, chains, owner, rank, b, next', BUCKETS);
    TakenPlaces(chains, owner, rank, b, chains', owner', rank');
  }

  lemma TakenTails(tails: seq<int>, chains: seq<seq<nat>>, b: nat)
    requires TailsOk(tails, chains) && b < BUCKETS && chains[BUCKETS] != []
    ensures TailsOk(tails[b := chains[BUCKETS][0]], TakenChains(chains, b))
  {
    var chains' := TakenChains(chains, b);
    forall c | 0 <= c < BUCKETS && chains'[c] != []
      ensures tails[b := chains[BUCKETS][0]][c] == chains'[c][|chains'[c]| - 1]
    {
      assert c != b ==> chains'[c] == chains[c];
    }
  }

  // ----- looking a key up -----

  method BinarySearch(keys: array2<nat>, s: nat, x: nat) returns (index: int)
    requires s < keys.Length0 && keys.Length1 == SEG_SIZE
    requires forall i, j :: 0 <= i < j < SEG_SIZE ==> keys[s, i] <= keys[s, j]
    ensures -1 <= index < SEG_SIZE
    ensures index >= 0 ==> keys[s, index] == x
    ensures index < 0 ==> forall i :: 0 <= i < SEG_SIZE ==> keys[s, i] != x
  {
    var l, r := 0, SEG_SIZE - 1;
    while r >= l
      invariant 0 <= l && r < SEG_SIZE && l <= r + 1
      invariant forall i :: 0 <= i < l ==> keys[s, i] < x
      invariant forall i :: r < i < SEG_SIZE ==> keys[s, i] > x
    {
      var mid := l + (r - l) / 2;
      if keys[s, mid] == x {
        return mid;
      } else if keys[s, mid] > x {
        r := mid - 1;
      } else {
        l := mid + 1;
      }
    }
    return -1;
  }

  method FindInSegment(keys: array2<nat>, s: nat, n: nat, key: nat) returns (index: int)
    requires s < keys.Length0 && n <= SEG_SIZE == keys.Length1
    requires n == SEG_SIZE ==> forall i, j :: 0 <= i < j < SEG_SIZE ==> keys[s, i] <= keys[s, j]
    ensures -1 <= index < n
    ensures index >= 0 ==> keys[s, index] == key
    ensures index < 0 ==> forall i :: 0 <= i < n ==> keys[s, i] != key
  {
    if n == SEG_SIZE {
      index := BinarySearch(keys, s, key);
    } else {
      for i := 0 to n
        invariant forall j :: 0 <= j < i ==> keys[s, j] != key
      {
        if keys[s, i] == key {
          return i;
        }
      }
      index := -1;
    }
  }

  method SearchSegment(keys: array2<nat>, data: array2<nat>, s: nat, n: nat, key: nat,
                       ghost b: nat, ghost at: map<nat, nat>, ghost m: map<nat, nat>)
    returns (index: int)
    requires Buffers(keys, data, s) && keys.Length1 == SEG_SIZE
    requires SegmentOk(Row(keys, data, s), n, s, b, at, m)
    ensures -1 <= index < n <= SEG_SIZE || index == -1
    ensures index >= 0 ==> keys[s, index] == key && key in m && data[s, index] == m[key]
    ensures index < 0 ==> !HasKey(Row(keys, data, s), n, key)
  {
    ghost var row := Row(keys, data, s);
    assert forall i :: 0 <= i < SEG_SIZE ==> keys[s, i] == row[i].key;
    index := FindInSegment(keys, s, n, key);
    assert index >= 0 ==> EntryOk(row[index], s, b, at, m);
  }

  lemma TakeReady(next: seq<int>, buckets: seq<int>, pool: int, tails: seq<int>, chains: seq<seq<nat>>,
                  owner: seq<nat>, rank: seq<int>, b: nat)
    requires ListsOk(next, buckets, pool, chains, owner, rank) && TailsOk(tails, chains)
    requires b < BUCKETS && pool != NULL
    ensures 0 <= pool < |next| && owner[pool] == BUCKETS && chains[BUCKETS] != [] && chains[BUCKETS][0] == pool
    ensures (buckets[b] == NULL) == (chains[b] == [])
    ensures buckets[b] != NULL ==> 0 <= tails[b] < |next| && tails[b] != pool
  {
    assert Linked(next, chains[b], buckets[b]);
    assert StandsIn(chains[BUCKETS][0], BUCKETS, 0, owner, rank);
    if chains[b] != [] {
      assert StandsIn(chains[b][|chains[b]| - 1], b, |chains[b]| - 1, owner, rank);
    }
  }

  lemma TakenHung(next: seq<int>, buckets: seq<int>, pool: int, tails: seq<int>, chains: seq<seq<nat>>,
                  owner: seq<nat>, rank: seq<int>, b: nat, next': seq<int>)
    requires ListsOk(next, buckets, pool, chains, owner, rank) && TailsOk(tails, chains)
    requires b < BUCKETS && pool != NULL && pool < |next| && (buckets[b] != NULL ==> 0 <= tails[b] < |next|)
    requires next' == if buckets[b] == NULL then next[pool := NULL] else next[pool := NULL][tails[b] := pool]
    ensures Hung(next, next', chains[b], pool)
  {
    TakeReady(next, buckets, pool, tails, chains, owner, rank, b);
    forall i | 0 <= i < |chains[b]| ensures chains[b][i] < |next| {
      assert StandsIn(chains[b][i], b, i, owner, rank);
    }
  }

  lemma TakenState(next: seq<int>, buckets: seq<int>, pool: int, tails: seq<int>, chains: seq<seq<nat>>,
                   owner: seq<nat>, rank: seq<int>, b: nat,
                   next': seq<int>, buckets': seq<int>, pool': int, tails': seq<int>)
    returns (chains': seq<seq<nat>>, owner': seq<nat>, rank': seq<int>)
    requires ListsOk(next, buckets, pool, chains, owner, rank) && TailsOk(tails, chains)
    requires b < BUCKETS && pool != NULL && pool < |next| && (buckets[b] != NULL ==> 0 <= tails[b] < |next|)
    requires next' == if buckets[b] == NULL then next[pool := NULL] else next[pool := NULL][tails[b] := pool]
    requires pool' == next[pool] && tails' == tails[b := pool]
    requires buckets' == if buckets[b] == NULL then buckets[b := pool] else buckets
    ensures ListsOk(next', buckets', pool', chains', owner', rank') && TailsOk(tails', chains')
    ensures chains[BUCKETS] != [] && chains' == TakenChains(chains, b) && owner' == owner[pool := b]
  {
    TakeReady(next, buckets, pool, tails, chains, owner, rank, b);
    TakenHung(next, buckets, pool, tails, chains, owner, rank, b, next');
    chains' := TakenChains(chains, b);
    owner' := owner[pool := b];
    rank' := TakenRank(rank, owner, pool, |chains[b]|);
    TakenLists(next, buckets, pool, chains, owner, rank, b, next', buckets', pool', chains', owner', rank');
    TakenTails(tails, chains, b);
  }

  ghost predicate Missing(segs: seq<nat>, rows: seq<seq<Entry>>, nkeys: seq<nat>, key: nat)
    requires |rows| == |nkeys|
  {
    forall s :: s in segs ==> s < |rows| && !HasKey(rows[s], nkeys[s], key)
  }

  /** A key the map has is in its bucket's chain. */
  lemma KeyInChain(rows: seq<seq<Entry>>, nkeys: seq<nat>, at: map<nat, nat>, m: map<nat, nat>,
                   chains: seq<seq<nat>>, owner: seq<nat>, rank: seq<int>, key: nat)
    requires ContentsOk(rows, nkeys, owner, at, m) && PlacesOk(chains, owner, rank) && key in m
    ensures at[key] in chains[Bucket(key)] && at[key] < |rows| && HasKey(rows[at[key]], nkeys[at[key]], key)
  {
    var s := at[key];
    assert KeyOk(key, rows, nkeys, owner, at);
    assert StandsSomewhere(s, chains, owner, rank);
    assert chains[Bucket(key)][rank[s]] == s;
  }

  /** So a search of the whole chain that does not meet the key shows it absent. */
  lemma NotInChain(rows: seq<seq<Entry>>, nkeys: seq<nat>, at: map<nat, nat>, m: map<nat, nat>,
                   chains: seq<seq<nat>>, owner: seq<nat>, rank: seq<int>, key: nat)
    requires ContentsOk(rows, nkeys, owner, at, m) && PlacesOk(chains, owner, rank)
    requires Missing(chains[Bucket(key)], rows, nkeys, key)
    ensures key !in m
  {
    if key in m {
      KeyInChain(rows, nkeys, at, m, chains, owner, rank, key);
    }
  }

  lemma ChainStep(next: seq<int>, buckets: seq<int>, pool: int, chains: seq<seq<nat>>, owner: seq<nat>, rank: seq<int>,
                  b: nat, r: nat)
    requires ListsOk(next, buckets, pool, chains, owner, rank) && b < BUCKETS && r < |chains[b]|
    ensures chains[b][r] < |owner| && owner[chains[b][r]] == b && LinkAt(next, chains[b], r)
  {
    assert StandsIn(chains[b][r], b, r, owner, rank);
    assert Linked(next, chains[b], buckets[b]);
  }

  lemma SegmentAt(rows: seq<seq<Entry>>, nkeys: seq<nat>, owner: seq<nat>, at: map<nat, nat>, m: map<nat, nat>, s: nat)
    requires ContentsOk(rows, nkeys, owner, at, m) && s < |rows| && owner[s] < BUCKETS
    ensures SegmentOk(rows[s], nkeys[s], s, owner[s], at, m)
  {
    assert |rows[s]| == SEG_SIZE;
  }

  lemma FreshLists(next: seq<int>, buckets: seq<int>, pool: int, chains: seq<seq<nat>>, owner: seq<nat>, rank: seq<int>)
    requires 0 < |next| == |owner| == |rank| && |chains| == BUCKETS + 1 && |buckets| == BUCKETS && pool == 0
    requires forall b :: 0 <= b < BUCKETS ==> chains[b] == [] && buckets[b] == NULL
    requires |chains[BUCKETS]| == |next|
    requires forall s :: 0 <= s < |next| ==> chains[BUCKETS][s] == s && rank[s] == s && owner[s] == BUCKETS
    requires forall s :: 0 <= s < |next| ==> next[s] == if s + 1 < |next| then s + 1 else NULL
    ensures ListsOk(next, buckets, pool, chains, owner, rank)
  {
    forall b | 0 <= b < BUCKETS ensures Linked(next, chains[b], buckets[b]) {}
    forall c, i | 0 <= c < |chains| && 0 <= i < |chains[c]| ensures StandsIn(chains[c][i], c, i, owner, rank) {
      assert c == BUCKETS;
    }
    forall s | 0 <= s < |owner| ensures StandsSomewhere(s, chains, owner, rank) {}
  }

  // ----- the buffers and what they hold -----

  ghost predicate RowsAre(keys: array2<nat>, data: array2<nat>, rows: seq<seq<Entry>>)
    reads keys, data
  {
    && |rows| == keys.Length0 == data.Length0 && keys.Length1 == data.Length1 == SEG_SIZE
    && forall t {:trigger rows[t]} :: 0 <= t < |rows| ==> Row(keys, data, t) == rows[t]
  }

  method PutEntry(keys: array2<nat>, data: array2<nat>, s: nat, i: nat, key: nat, value: nat,
                  ghost rows: seq<seq<Entry>>)
    requires keys != data && RowsAre(keys, data, rows) && s < |rows| && i < |rows[s]|
    modifies keys, data
    ensures RowsAre(keys, data, rows[s := rows[s][i := Entry(key, value)]])
  {
    assert rows[s] == Row(keys, data, s);
    keys[s, i] := key;
    data[s, i] := value;
    assert Row(keys, data, s) == rows[s][i := Entry(key, value)];
    forall t | 0 <= t < |rows| && t != s ensures Row(keys, data, t) == rows[t] {
      assert old(Row(keys, data, t)) == rows[t];
    }
  }

  /** Append, and sort once full. */
  method AppendEntry(keys: array2<nat>, data: array2<nat>, s: nat, n: nat, key: nat, value: nat,
                     ghost rows: seq<seq<Entry>>)
    returns (ghost row: seq<Entry>)
    requires keys != data && RowsAre(keys, data, rows) && s < |rows| && n < SEG_SIZE == |rows[s]|
    modifies keys, data
    ensures |row| == SEG_SIZE && Added(rows[s], n, Entry(key, value), row)
    ensures RowsAre(keys, data, rows[s := row])
  {
    PutEntry(keys, data, s, n, key, value, rows);
    row := rows[s][n := Entry(key, value)];
    ghost var rows' := rows[s := row];
    assert row == rows'[s];
    if n + 1 == SEG_SIZE {
      QuickSort(keys, data, s, 0, SEG_SIZE - 1, rows');
      row := Row(keys, data, s);
    }
  }

  class HvrMap {
    const keys: array2<nat>
    const data: array2<nat>
    var nkeys: seq<nat>
    var next: seq<int>
    var buckets: seq<int>
    var tails: seq<int>
    var pool: int
    ghost var rows: seq<seq<Entry>>
    ghost var chains: seq<seq<nat>>
    ghost var owner: seq<nat>
    ghost var rank: seq<int>
    ghost var at: map<nat, nat>
    ghost var contents: map<nat, nat>

    ghost predicate Valid()
      reads this, keys, data
    {
      && keys != data && RowsAre(keys, data, rows)
      && |rows| == |next|
      && ListsOk(next, buckets, pool, chains, owner, rank)
      && TailsOk(tails, chains)
      && ContentsOk(rows, nkeys, owner, at, contents)
    }

    /** `nSegs` segments are preallocated and linked into the pool. */
    constructor (nSegs: nat)
      requires nSegs > 0
      ensures Valid() && contents == map[] && fresh(keys) && fresh(data)
      ensures |chains[BUCKETS]| == nSegs
    {
      keys := new nat[nSegs, SEG_SIZE];
      data := new nat[nSegs, SEG_SIZE];
      nkeys := seq(nSegs, _ => 0);
      next := seq(nSegs, i => if i + 1 < nSegs then i + 1 else NULL);
      buckets := seq(BUCKETS, _ => NULL);
      tails := seq(BUCKETS, _ => NULL);
      pool := 0;
      var free: seq<nat> := seq(nSegs, i => i);
      chains := seq(BUCKETS, _ => []) + [free];
      owner := seq(nSegs, _ => BUCKETS);
      rank := seq(nSegs, i => i);
      at := map[];
      contents := map[];
      new;
      rows := seq(nSegs, s requires 0 <= s < nSegs reads keys, data => Row(keys, data, s));
      FreshLists(next, buckets, pool, chains, owner, rank);
    }

    /** Where `key` is: full segments are bisected, the others scanned. */
    method Find(key: nat) returns (found: bool, seg: nat, index: nat)
      requires Valid()
      ensures found <==> key in contents
      ensures found ==> seg < |nkeys| && owner[seg] == Bucket(key) && index < nkeys[seg] <= SEG_SIZE
      ensures found ==> keys[seg, index] == key && data[seg, index] == contents[key]
    {
      var b := Bucket(key);
      ghost var chain, r := chains[b], 0;
      var cur := buckets[b];
      assert Linked(next, chain, cur) by { assert chain == chains[b]; }
      while cur != NULL
        invariant 0 <= r <= |chain| && cur == if r < |chain| then chain[r] else NULL
        invariant Missing(chain[..r], rows, nkeys, key)
        decreases |chain| - r
      {
        ChainStep(next, buckets, pool, chains, owner, rank, b, r);
        SegmentAt(rows, nkeys, owner, at, contents, cur);
        var i := SearchSegment(keys, data, cur, nkeys[cur], key, b, at, contents);
        if i >= 0 {
          return true, cur, i;
        }
        assert chain[..r + 1] == chain[..r] + [chain[r]];
        cur := next[cur];
        r := r + 1;
      }
      assert chain[..r] == chain;
      NotInChain(rows, nkeys, at, contents, chains, owner, rank, key);
      return false, 0, 0;
    }

    /** NULL, here 0, for a key the map does not have. */
    method Get(key: nat) returns (value: nat)
      requires Valid()
      ensures value == if key in contents then contents[key] else 0
    {
      var found, s, i := Find(key);
      return if found then data[s, i] else 0;
    }

    /** The chains are left as they were. */
    twostate predicate SameLists()
      reads this
    {
      && next == old(next) && buckets == old(buckets) && tails == old(tails) && pool == old(pool)
      && chains == old(chains) && owner == old(owner) && rank == old(rank)
    }

    /** `hvr_map_seg_add`. */
    method SegAdd(s: nat, key: nat, value: nat)
      requires Valid() && s < |nkeys| && owner[s] == Bucket(key) && nkeys[s] < SEG_SIZE && key !in contents
      modifies this, keys, data
      ensures Valid() && SameLists()
      ensures contents == old(contents)[key := value]
    {
      ghost var row := AppendEntry(keys, data, s, nkeys[s], key, value, rows);
      AddedContents(rows, nkeys, owner, at, contents, s, Entry(key, value), row);
      nkeys := nkeys[s := nkeys[s] + 1];
      rows := rows[s := row];
      at := at[key := s];
      contents := contents[key := value];
    }

    /** The first pool segment, emptied and hung at the end of bucket `b`'s chain. */
    method TakeSegment(b: nat) returns (s: nat)
      requires Valid() && b < BUCKETS && pool != NULL
      modifies this
      ensures Valid() && contents == old(contents)
      ensures s < |nkeys| && nkeys[s] == 0 && owner[s] == b
      ensures old(chains[BUCKETS]) != [] && s == old(pool) && chains == TakenChains(old(chains), b)
    {
      TakeReady(next, buckets, pool, tails, chains, owner, rank, b);
      s := pool;
      pool := next[s];
      nkeys := nkeys[s := 0];
      next := next[s := NULL];
      if buckets[b] == NULL {
        buckets := buckets[b := s];
      } else {
        next := next[tails[b] := s];
      }
      tails := tails[b := s];
      TakenContents(rows, old(nkeys), owner, at, contents, s, b);
      chains, owner, rank := TakenState(old(next), old(buckets), old(pool), old(tails), chains, owner, rank, b,
                                        next, buckets, pool, tails);
    }

    /** Whether a new key of bucket `b` needs a segment of its own. */
    ghost predicate NeedsSegment(b: nat)
      requires b < |chains|
      reads this
    {
      chains[b] == [] ||
      (chains[b][|chains[b]| - 1] < |nkeys| && nkeys[chains[b][|chains[b]| - 1]] == 128)
    }

    /** Without `replace` the caller vouches that a present key already has this value. The
        source aborts, here `!ok`, exactly when it needs a segment and the pool is empty. */
    method Add(key: nat, value: nat, replace: bool) returns (ok: bool)
      requires Valid()
      requires !replace && key in contents ==> contents[key] == value
      modifies this, keys, data
      ensures Valid()
      ensures ok <==> key in old(contents) || !old(NeedsSegment(key % 16384)) || old(chains[16384]) != []
      ensures contents == if ok then old(contents)[key := value] else old(contents)
    {
      var found, s, i := Find(key);
      var b := Bucket(key);
      assert Linked(next, chains[b], buckets[b]) && Linked(next, chains[BUCKETS], pool);
      if found {
        if replace {
          PutEntry(keys, data, s, i, key, value, rows);
          ReplacedContents(rows, nkeys, owner, at, contents, s, i, value);
          rows := rows[s := rows[s][i := Entry(key, value)]];
          contents := contents[key := value];
        }
        return true;
      }
      if buckets[b] == NULL || nkeys[tails[b]] == SEG_SIZE {
        if pool == NULL {
          return false;
        }
        s := TakeSegment(b);
      } else {
        s := tails[b];
        assert StandsIn(s, b, |chains[b]| - 1, owner, rank);
        SegmentAt(rows, nkeys, owner, at, contents, s);
      }
      SegAdd(s, key, value);
      return true;
    }

    /** The segment's last key fills the hole. */
    method RemoveAt(s: nat, i: nat, key: nat)
      requires Valid() && s < |rows| && owner[s] < BUCKETS && i < nkeys[s] <= SEG_SIZE && keys[s, i] == key
      modifies this, keys, data
      ensures Valid() && SameLists()
      ensures contents == old(contents) - {key}
    {
      var last := nkeys[s] - 1;
      ghost var row := rows[s];
      assert row == Row(keys, data, s);
      ghost var row' := row[i := row[last]];
      PutEntry(keys, data, s, i, keys[s, last], data[s, last], rows);
      RemovedContents(rows, nkeys, owner, at, contents, s, i, key, row');
      nkeys := nkeys[s := last];
      rows := rows[s := row'];
      at := at - {key};
      contents := contents - {key};
    }

    /** The caller vouches that a present key has the value `value`. */
    method Remove(key: nat, value: nat)
      requires Valid()
      requires key in contents ==> contents[key] == value
      modifies this, keys, data
      ensures Valid() && SameLists()
      ensures contents == old(contents) - {key}
    {
      var found, s, i := Find(key);
      if found {
        RemoveAt(s, i, key);
      }
    }
  }
}
