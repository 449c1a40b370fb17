/** Open addressing with tombstones and resizing
    (src/sparsehash-c11/sparsehash/internal/densehashtable.h and hashtable-common.h).

    Two reserved keys mark empty and deleted buckets. */
module DenseHashtable {
  import opened Bits
  import opened Sets
  import opened Probing
  import opened Wrappers

  datatype Cell<K, V> = Cell(key: K, value: V)

  const HT_MIN_BUCKETS: nat := 4
  const HT_DEFAULT_STARTING_BUCKETS: nat := 32

  /** An index no bucket has. */
  const ILLEGAL_BUCKET: int := -1

  // ----- what a table means -----

  /** A key that marks neither an empty nor a deleted bucket. */
  predicate Real<K(==)>(key: K, e: K, d: Option<K>) {
    key != e && d != Some(key)
  }

  /** The first `j` buckets probed for this hash are in use or deleted. */
  predicate Reach<K(==), V>(t: seq<Cell<K, V>>, hash: nat, j: nat, e: K) {
    forall i :: 0 <= i < j && |t| > 0 ==> t[Probe(hash, i, |t|)].key != e
  }

  /** Bucket `b` is found after some probes for this hash. */
  ghost predicate Reachable<K, V>(t: seq<Cell<K, V>>, hash: nat, b: nat, e: K) {
    |t| > 0 && exists j: nat :: Probe(hash, j, |t|) == b && Reach(t, hash, j, e)
  }

  ghost predicate Placed<K, V>(t: seq<Cell<K, V>>, hash: K -> nat, e: K, d: Option<K>) {
    forall b :: 0 <= b < |t| && Real(t[b].key, e, d) ==> Reachable(t, hash(t[b].key), b, e)
  }

  predicate Unique<K(==), V>(t: seq<Cell<K, V>>, e: K, d: Option<K>) {
    forall a, b :: 0 <= a < b < |t| && Real(t[a].key, e, d) ==> t[a].key != t[b].key
  }

  /** The buckets with a real key hold exactly the pairs of `c`. */
  ghost predicate Represents<K, V>(t: seq<Cell<K, V>>, e: K, d: Option<K>, c: map<K, V>) {
    && (forall b :: 0 <= b < |t| && Real(t[b].key, e, d) ==> t[b].key in c && c[t[b].key] == t[b].value)
    && (forall key <- c :: Real(key, e, d) && exists b :: 0 <= b < |t| && t[b].key == key)
  }

  ghost predicate TableOk<K, V>(t: seq<Cell<K, V>>, hash: K -> nat, e: K, d: Option<K>, k: nat, c: map<K, V>) {
    && |t| == Pow2(k) && k >= 2 && d != Some(e)
    && Placed(t, hash, e, d) && Unique(t, e, d) && Represents(t, e, d, c)
  }

  ghost function Filled<K, V>(t: seq<Cell<K, V>>, e: K): set<nat> {
    set b: nat | b < |t| && t[b].key != e
  }

  ghost function Tombs<K, V>(t: seq<Cell<K, V>>, d: Option<K>): set<nat> {
    set b: nat | b < |t| && d == Some(t[b].key)
  }

  /** `num_elements` counts the buckets not empty, `num_deleted` the tombstones among them. */
  ghost predicate Counted<K, V>(t: seq<Cell<K, V>>, e: K, d: Option<K>, num_elements: nat, num_deleted: nat) {
    num_elements == |Filled(t, e)| && num_deleted == |Tombs(t, d)|
  }

  // ----- searching -----

  /** A table that is not full has an empty bucket on every probe sequence. */
  lemma HoleAhead<K, V>(t: seq<Cell<K, V>>, hash: nat, k: nat, e: K) returns (hole: nat)
    requires |t| == Pow2(k) && |Filled(t, e)| < |t|
    ensures hole < |t| && t[Probe(hash, hole, |t|)].key == e
  {
    assert (forall b :: 0 <= b < |t| ==> t[b].key != e) ==> Filled(t, e) == Below(|t|);
    var b :| 0 <= b < |t| && t[b].key == e;
    hole := ProbesCover(hash, k, b);
  }

  /** An empty bucket on the probe sequence, reached without meeting the key, shows it is absent. */
  lemma AbsentAtHole<K, V>(t: seq<Cell<K, V>>, hash: K -> nat, e: K, d: Option<K>, k: nat, c: map<K, V>, key: K, j: nat)
    requires TableOk(t, hash, e, d, k, c)
    requires t[Probe(hash(key), j, |t|)].key == e
    requires forall i :: 0 <= i < j && Real(key, e, d) ==> t[Probe(hash(key), i, |t|)].key != key
    ensures key !in c
  {
    assert Real(key, e, d) ==> forall b: nat :: b < |t| && t[b].key == key ==> Reachable(t, hash(key), b, e);
  }

  // ----- one bucket changed -----

  /** Filling a bucket that no probe sequence stops short of adds the pair. */
  lemma PutOk<K, V>(t: seq<Cell<K, V>>, hash: K -> nat, e: K, d: Option<K>, k: nat, c: map<K, V>,
                    pos: nat, key: K, value: V, t': seq<Cell<K, V>>)
    requires TableOk(t, hash, e, d, k, c) && Real(key, e, d) && key !in c
    requires pos < |t| && !Real(t[pos].key, e, d) && Reachable(t, hash(key), pos, e)
    requires t' == t[pos := Cell(key, value)]
    ensures TableOk(t', hash, e, d, k, c[key := value])
  {
    forall b | 0 <= b < |t'| && Real(t'[b].key, e, d) ensures Reachable(t', hash(t'[b].key), b, e) {
      assert b != pos ==> Reachable(t, hash(t[b].key), b, e);
      StillReachable(t, t', hash(t'[b].key), b, e);
    }
    forall x <- c[key := value] ensures Real(x, e, d) && exists b :: 0 <= b < |t'| && t'[b].key == x {
      if x == key {
        assert t'[pos].key == key;
      } else {
        var b :| 0 <= b < |t| && t[b].key == x;
        assert t'[b].key == x;
      }
    }
  }

  /** No bucket became empty. */
  lemma StillReachable<K, V>(t: seq<Cell<K, V>>, t': seq<Cell<K, V>>, hash: nat, b: nat, e: K)
    requires |t'| == |t| && Reachable(t, hash, b, e)
    requires forall i :: 0 <= i < |t| && t[i].key != e ==> t'[i].key != e
    ensures Reachable(t', hash, b, e)
  {
    var j: nat :| Probe(hash, j, |t|) == b && Reach(t, hash, j, e);
    assert Reach(t', hash, j, e);
  }

  /** A tombstone takes out one pair and shortens no probe sequence. */
  lemma BuryOk<K, V>(t: seq<Cell<K, V>>, hash: K -> nat, e: K, d: Option<K>, k: nat, c: map<K, V>,
                     pos: nat, t': seq<Cell<K, V>>)
    requires TableOk(t, hash, e, d, k, c) && d.Some? && pos < |t| && Real(t[pos].key, e, d)
    requires t' == t[pos := Cell(d.value, t[pos].value)]
    ensures TableOk(t', hash, e, d, k, c - {t[pos].key})
  {
    var c' := c - {t[pos].key};
    forall b | 0 <= b < |t'| && Real(t'[b].key, e, d) ensures Reachable(t', hash(t'[b].key), b, e) {
      assert Reachable(t, hash(t[b].key), b, e);
      StillReachable(t, t', hash(t'[b].key), b, e);
    }
    forall x <- c' ensures Real(x, e, d) && exists b :: 0 <= b < |t'| && t'[b].key == x {
      var b :| 0 <= b < |t| && t[b].key == x;
      assert t'[b].key == x;
    }
  }

  lemma CountPut<K, V>(t: seq<Cell<K, V>>, e: K, d: Option<K>, n: nat, m: nat, pos: nat, key: K, value: V, t': seq<Cell<K, V>>)
    requires Counted(t, e, d, n, m) && d != Some(e) && Real(key, e, d) && pos < |t| && !Real(t[pos].key, e, d)
    requires t' == t[pos := Cell(key, value)]
    ensures t[pos].key == e ==> Counted(t', e, d, n + 1, m)
    ensures t[pos].key != e ==> m > 0 && Counted(t', e, d, n, m - 1)
  {
    FilledUpdate(t, e, pos, t');
    TombsUpdate(t, d, pos, t');
  }

  lemma FilledUpdate<K, V>(t: seq<Cell<K, V>>, e: K, pos: nat, t': seq<Cell<K, V>>)
    requires pos < |t| == |t'| && t' == t[pos := t'[pos]]
    ensures |Filled(t', e)| == |Filled(t, e)| + (if t'[pos].key != e then 1 else 0) - (if t[pos].key != e then 1 else 0)
  {
    var rest := Filled(t, e) - {pos};
    assert Filled(t, e) == if t[pos].key != e then rest + {pos} else rest;
    assert Filled(t', e) == if t'[pos].key != e then rest + {pos} else rest;
  }

  lemma TombsUpdate<K, V>(t: seq<Cell<K, V>>, d: Option<K>, pos: nat, t': seq<Cell<K, V>>)
    requires pos < |t| == |t'| && t' == t[pos := t'[pos]]
    ensures |Tombs(t', d)| == |Tombs(t, d)| + (if d == Some(t'[pos].key) then 1 else 0)
                              - (if d == Some(t[pos].key) then 1 else 0)
  {
    var rest := Tombs(t, d) - {pos};
    assert Tombs(t, d) == if d == Some(t[pos].key) then rest + {pos} else rest;
    assert Tombs(t', d) == if d == Some(t'[pos].key) then rest + {pos} else rest;
  }

  lemma CountBury<K, V>(t: seq<Cell<K, V>>, e: K, d: Option<K>, n: nat, m: nat, pos: nat, t': seq<Cell<K, V>>)
    requires Counted(t, e, d, n, m) && d.Some? && d.value != e && pos < |t| && Real(t[pos].key, e, d)
    requires t' == t[pos := Cell(d.value, t[pos].value)]
    ensures Counted(t', e, d, n, m + 1)
  {
    FilledUpdate(t, e, pos, t');
    TombsUpdate(t, d, pos, t');
  }

  ghost function KeysAt<K, V>(t: seq<Cell<K, V>>, s: set<nat>): set<K> {
    set b | b in s && b < |t| :: t[b].key
  }

  lemma FullCount<K, V>(t: seq<Cell<K, V>>, e: K, d: Option<K>, n: nat, m: nat, full: set<nat>)
    requires Counted(t, e, d, n, m) && d != Some(e)
    requires forall b :: b in full <==> 0 <= b < |t| && Real(t[b].key, e, d)
    ensures |full| == n - m
  {
    assert Filled(t, e) == full + Tombs(t, d);
    assert full !! Tombs(t, d);
  }

  /** The table holds as many pairs as there are buckets neither empty nor deleted. */
  lemma SizeIsCount<K, V>(t: seq<Cell<K, V>>, hash: K -> nat, e: K, d: Option<K>, k: nat, c: map<K, V>, n: nat, m: nat)
    requires TableOk(t, hash, e, d, k, c) && Counted(t, e, d, n, m)
    ensures |c| == n - m
  {
    var full := set b: nat | b < |t| && Real(t[b].key, e, d);
    FullCount(t, e, d, n, m, full);
    KeysOf(t, full);
    RealKeys(t, e, d, c, full);
  }

  lemma RealKeys<K, V>(t: seq<Cell<K, V>>, e: K, d: Option<K>, c: map<K, V>, full: set<nat>)
    requires Represents(t, e, d, c) && forall b :: b in full <==> 0 <= b < |t| && Real(t[b].key, e, d)
    ensures c.Keys == KeysAt(t, full)
  {
    forall key <- c ensures key in KeysAt(t, full) {
      var b :| 0 <= b < |t| && t[b].key == key;
      assert b in full;
    }
  }

  lemma {:induction false} KeysOf<K, V>(t: seq<Cell<K, V>>, s: set<nat>)
    requires forall b <- s :: b < |t|
    requires forall a, b :: a in s && b in s && a < b ==> t[a].key != t[b].key
    ensures |KeysAt(t, s)| == |s|
    decreases s
  {
    if x :| x in s {
      KeysOf(t, s - {x});
      assert KeysAt(t, s) == KeysAt(t, s - {x}) + {t[x].key};
      assert t[x].key !in KeysAt(t, s - {x});
    } else {
      assert KeysAt(t, s) == {};
    }
  }

  // ----- sizing -----

  /** `enlarge_size`: half the buckets, at the default factor of 0.5. */
  function EnlargeSize(n: nat): nat {
    n / 2
  }

  /** `shrink_size`: 0.2 as a 32-bit float is 13421773 / 2^26; a power of two times it is exact. */
  function ShrinkSize(n: nat): nat {
    n * 13421773 / 0x400_0000
  }

  /** What a table of `sz` buckets must satisfy to hold `num` keys: room for one more below half load. */
  predicate Roomy(sz: nat, num: nat, wanted: nat) {
    sz >= wanted && 2 * (num + 1) <= sz
  }

  /** `Pow2(k)` buckets are no more than needed. */
  predicate Least(k: nat, num: nat, wanted: nat) {
    k >= 2 && (k == 2 || !Roomy(Pow2(k - 1), num, wanted))
  }

  lemma RoomyAbove(a: nat, b: nat, num: nat, wanted: nat)
    requires a <= b
    ensures Roomy(a, num, wanted) ==> Roomy(b, num, wanted)
  {
  }

  /** No roomy power of two is smaller. */
  lemma LeastMeans(k: nat, num: nat, wanted: nat, j: nat)
    requires Least(k, num, wanted) && j >= 2 && Roomy(Pow2(j), num, wanted)
    ensures Pow2(k) <= Pow2(j)
  {
    var p, q := Pow2(j), Pow2(k - 1);
    if j < k {
      Pow2Bound(j, k - 1);
      RoomyAbove(p, q, num, wanted);
      assert false;
    }
    Pow2Bound(k, j);
  }

  /** `min_buckets`: the smallest power of two from 4 that is large enough, unless
      `size_type` has none. */
  method MinBuckets(num: nat, wanted: nat) returns (sz: nat, overflow: bool, ghost k: nat)
    ensures !overflow ==> sz == Pow2(k) && Roomy(sz, num, wanted) && Least(k, num, wanted)
    ensures overflow <==> !Roomy(TOP, num, wanted)
    ensures !overflow ==> sz <= TOP
  {
    sz, k := HT_MIN_BUCKETS, 2;
    overflow := false;
    TopIsPow2();
    while sz < wanted || num >= EnlargeSize(sz)
      invariant 2 <= k <= 63 && sz == Pow2(k)
      invariant k == 2 || !Roomy(Pow2(k - 1), num, wanted)
      decreases 63 - k
    {
      if k < 63 { Pow2Bound(k + 1, 63); }
      if (2 * sz) % WORD < sz {
        assert k == 63;
        overflow := true;
        return;
      }
      sz, k := 2 * sz, k + 1;
    }
    Pow2Bound(k, 63);
  }

  lemma Pow2Bound(a: nat, b: nat)
    requires a <= b
    ensures Pow2(a) <= Pow2(b)
  {
    if a < b { Pow2Order(a, b); }
  }

  // ----- probe loops -----

  /** `find_position` on a table with tombstones: where the key is, or where it would go. */
  method FindPosition<K(==), V>(table: array<Cell<K, V>>, hash: K -> nat, e: K, d: Option<K>, num_deleted: nat,
                                key: K, ghost k: nat, ghost c: map<K, V>)
    returns (first: int, second: int)
    requires TableOk(table[..], hash, e, d, k, c)
    requires |Filled(table[..], e)| < table.Length && num_deleted == |Tombs(table[..], d)|
    ensures first == ILLEGAL_BUCKET || second == ILLEGAL_BUCKET
    ensures (first != ILLEGAL_BUCKET) == (key in c)
    ensures first != ILLEGAL_BUCKET ==> 0 <= first < table.Length && table[first].key == key && table[first].value == c[key]
    ensures first == ILLEGAL_BUCKET ==>
      && 0 <= second < table.Length && !Real(table[second].key, e, d)
      && Reachable(table[..], hash(key), second, e)
  {
    ghost var t, h := table[..], hash(key);
    ghost var hole := HoleAhead(t, h, k, e);
    var num_probes := 0;
    var bucknum := hash(key) % table.Length;
    var insert_pos: int := ILLEGAL_BUCKET;
    while true
      invariant num_probes <= hole < table.Length && bucknum == Probe(h, num_probes, table.Length)
      invariant Reach(t, h, num_probes, e)
      invariant forall i :: 0 <= i < num_probes && Real(key, e, d) ==> t[Probe(h, i, table.Length)].key != key
      invariant insert_pos != ILLEGAL_BUCKET ==>
        && 0 <= insert_pos < table.Length && d == Some(t[insert_pos].key) && Reachable(t, h, insert_pos, e)
      decreases hole - num_probes
    {
      if table[bucknum].key == e {
        AbsentAtHole(t, hash, e, d, k, c, key, num_probes);
        assert Reachable(t, h, bucknum, e);
        if insert_pos == ILLEGAL_BUCKET {
          return ILLEGAL_BUCKET, bucknum;
        } else {
          return ILLEGAL_BUCKET, insert_pos;
        }
      } else if num_deleted > 0 && d == Some(table[bucknum].key) {
        if insert_pos == ILLEGAL_BUCKET { insert_pos := bucknum; }
      } else if table[bucknum].key == key {
        NotDeleted(t, d, num_deleted, bucknum);
        return bucknum, ILLEGAL_BUCKET;
      }
      ProbeStep(h, num_probes, table.Length);
      num_probes := num_probes + 1;
      bucknum := (bucknum + num_probes) % table.Length;
      assert num_probes < table.Length;
    }
  }

  /** The probe loop of a rehash, in a table without tombstones. */
  method FindEmpty<K(==), V>(table: array<Cell<K, V>>, hash: nat, e: K, ghost k: nat) returns (bucknum: nat)
    requires table.Length == Pow2(k) && |Filled(table[..], e)| < table.Length
    ensures bucknum < table.Length && table[bucknum].key == e && Reachable(table[..], hash, bucknum, e)
  {
    ghost var t := table[..];
    ghost var hole := HoleAhead(t, hash, k, e);
    var num_probes := 0;
    bucknum := hash % table.Length;
    while table[bucknum].key != e
      invariant num_probes <= hole < table.Length && bucknum == Probe(hash, num_probes, table.Length)
      invariant Reach(t, hash, num_probes, e)
      decreases hole - num_probes
    {
      ProbeStep(hash, num_probes, table.Length);
      num_probes := num_probes + 1;
      assert num_probes < table.Length;
      bucknum := (bucknum + num_probes) % table.Length;
    }
  }

  /** The table refines `c`, its counts are exact, and half its buckets are empty. */
  ghost predicate StateOk<K, V>(t: seq<Cell<K, V>>, hash: K -> nat, e: K, d: Option<K>, k: nat, c: map<K, V>,
                                num_elements: nat, num_deleted: nat, enlarge_threshold: nat) {
    && TableOk(t, hash, e, d, k, c) && Counted(t, e, d, num_elements, num_deleted)
    && 2 * num_elements <= |t| && num_deleted <= num_elements
    && enlarge_threshold == EnlargeSize(|t|)
  }

  lemma SizeOfState<K, V>(t: seq<Cell<K, V>>, hash: K -> nat, e: K, d: Option<K>, k: nat, c: map<K, V>,
                          n: nat, m: nat, et: nat)
    requires StateOk(t, hash, e, d, k, c, n, m, et)
    ensures |c| == n - m
  {
    SizeIsCount(t, hash, e, d, k, c, n, m);
  }

  // ----- rehashing -----

  lemma EmptyTableOk<K, V>(t: seq<Cell<K, V>>, hash: K -> nat, e: K, d: Option<K>, k: nat)
    requires |t| == Pow2(k) && k >= 2 && d != Some(e) && forall b :: 0 <= b < |t| ==> t[b].key == e
    ensures TableOk(t, hash, e, d, k, map[]) && Counted(t, e, d, 0, 0)
  {
    assert Filled(t, e) == {} && Tombs(t, d) == {};
  }

  /** One more bucket of the old table. */
  lemma OneMore<K, V>(t: seq<Cell<K, V>>, e: K, d: Option<K>, c: map<K, V>, i: nat, u: seq<Cell<K, V>>,
                      c': map<K, V>)
    requires i < |t| && Unique(t, e, d) && Represents(t[..i], e, d, c) && u == t[..i + 1]
    requires c' == if Real(t[i].key, e, d) then c[t[i].key := t[i].value] else c
    ensures Represents(u, e, d, c')
  {
    forall x <- c' ensures Real(x, e, d) && exists b :: 0 <= b < |u| && u[b].key == x {
      if x in c {
        var b :| 0 <= b < i && t[..i][b].key == x;
        assert u[b].key == x;
      } else {
        assert u[i].key == x;
      }
    }
    forall b | 0 <= b < |u| && Real(u[b].key, e, d) ensures u[b].key in c' && c'[u[b].key] == u[b].value {
      if b < i { assert t[..i][b] == u[b]; }
    }
  }

  lemma NotYet<K, V>(t: seq<Cell<K, V>>, e: K, d: Option<K>, c: map<K, V>, i: nat)
    requires i < |t| && Unique(t, e, d) && Represents(t[..i], e, d, c) && Real(t[i].key, e, d)
    ensures t[i].key !in c
  {
    assert forall b :: 0 <= b < i ==> t[..i][b] == t[b];
  }

  /** Parts of a table hold no more than the whole. */
  lemma PartOfWhole<K, V>(t: seq<Cell<K, V>>, e: K, d: Option<K>, c: map<K, V>, i: nat, c': map<K, V>)
    requires i <= |t| && Represents(t, e, d, c) && Represents(t[..i], e, d, c')
    ensures |c'| <= |c| && (i == |t| ==> c' == c)
  {
    forall x <- c' ensures x in c && c'[x] == c[x] {
      var b :| 0 <= b < i && t[..i][b].key == x;
      assert t[b].key == x;
    }
    SubsetSize(c'.Keys, c.Keys);
    if i == |t| {
      forall x <- c ensures x in c' {
        var b :| 0 <= b < |t| && t[b].key == x;
        assert t[..i][b].key == x;
      }
      assert c'.Keys == c.Keys;
    }
  }

  /** A pair with a new key goes to the first empty bucket its probes meet. */
  method MoveCell<K(==), V>(table: array<Cell<K, V>>, hash: K -> nat, e: K, ghost d: Option<K>, cell: Cell<K, V>,
                            ghost k: nat, ghost c: map<K, V>, ghost n: nat)
    requires TableOk(table[..], hash, e, d, k, c) && Counted(table[..], e, d, n, 0) && |c| < table.Length
    requires Real(cell.key, e, d) && cell.key !in c
    modifies table
    ensures TableOk(table[..], hash, e, d, k, c[cell.key := cell.value]) && Counted(table[..], e, d, n + 1, 0)
  {
    ghost var t := table[..];
    SizeIsCount(t, hash, e, d, k, c, n, 0);
    var bucknum := FindEmpty(table, hash(cell.key), e, k);
    table[bucknum] := cell;
    PutOk(t, hash, e, d, k, c, bucknum, cell.key, cell.value, table[..]);
    CountPut(t, e, d, n, 0, bucknum, cell.key, cell.value, table[..]);
  }

  /** `copy_or_move_from`: every pair of the old table once, and no tombstone. */
  method CopyFrom<K(==), V(0)>(old_table: array<Cell<K, V>>, hash: K -> nat, e: K, d: Option<K>, zero: V, n: nat,
                               num_deleted: nat, ghost k: nat, ghost c: map<K, V>, ghost old_k: nat)
    returns (table: array<Cell<K, V>>, num_elements: nat)
    requires TableOk(old_table[..], hash, e, d, old_k, c) && num_deleted == |Tombs(old_table[..], d)|
    requires n == Pow2(k) && k >= 2 && |c| < EnlargeSize(n)
    ensures fresh(table) && table.Length == n && num_elements == |c|
    ensures StateOk(table[..], hash, e, d, k, c, num_elements, 0, EnlargeSize(n))
  {
    table := new Cell<K, V>[n](_ => Cell(e, zero));
    num_elements := 0;
    ghost var t := old_table[..];
    ghost var part: map<K, V> := map[];
    EmptyTableOk(table[..], hash, e, d, k);
    var i := 0;
    while i < old_table.Length
      invariant 0 <= i <= old_table.Length && fresh(table) && table.Length == n
      invariant old_table[..] == t && Represents(t[..i], e, d, part)
      invariant TableOk(table[..], hash, e, d, k, part) && Counted(table[..], e, d, num_elements, 0)
    {
      var cell := old_table[i];
      if cell.key != e && !(num_deleted > 0 && d == Some(cell.key)) {
        NotDeleted(t, d, num_deleted, i);
        NotYet(t, e, d, part, i);
        PartOfWhole(t, e, d, c, i, part);
        MoveCell(table, hash, e, d, cell, k, part, num_elements);
        num_elements := num_elements + 1;
        OneMore(t, e, d, part, i, t[..i + 1], part[cell.key := cell.value]);
        part := part[cell.key := cell.value];
      } else {
        OneMore(t, e, d, part, i, t[..i + 1], part);
      }
      i := i + 1;
    }
    PartOfWhole(t, e, d, c, i, part);
    SizeIsCount(table[..], hash, e, d, k, part, num_elements, 0);
  }

  /** `test_deleted`: looking at the count first changes nothing. */
  lemma NotDeleted<K, V>(t: seq<Cell<K, V>>, d: Option<K>, num_deleted: nat, b: nat)
    requires num_deleted == |Tombs(t, d)| && b < |t|
    ensures (num_deleted > 0 && d == Some(t[b].key)) == (d == Some(t[b].key))
  {
    if d == Some(t[b].key) { assert b in Tombs(t, d); }
  }

  /** The moving constructor: a table of `min_buckets` buckets with the same pairs, if there can be one. */
  method MovedTo<K(==), V(0)>(table: array<Cell<K, V>>, hash: K -> nat, e: K, d: Option<K>, zero: V, wanted: nat,
                              size: nat, num_deleted: nat, ghost k: nat, ghost c: map<K, V>)
    returns (t: array<Cell<K, V>>, num_elements: nat, ok: bool, ghost k': nat)
    requires TableOk(table[..], hash, e, d, k, c) && num_deleted == |Tombs(table[..], d)| && size == |c|
    ensures ok <==> Roomy(TOP, size, wanted)
    ensures ok ==> fresh(t) && t.Length == Pow2(k') <= TOP && num_elements == size
    ensures ok ==> Roomy(t.Length, size, wanted) && Least(k', size, wanted)
    ensures ok ==> StateOk(t[..], hash, e, d, k', c, num_elements, 0, EnlargeSize(t.Length))
  {
    var n, overflow;
    t, num_elements := table, 0;
    n, overflow, k' := MinBuckets(size, wanted);
    ok := !overflow;
    if ok {
      t, num_elements := CopyFrom(table, hash, e, d, zero, n, num_deleted, k', c, k);
    }
  }

  // ----- the table -----

  const SIZE_MAX: nat := WORD - 1

  /** With less than a fifth of the buckets in use, half of them are room enough. */
  lemma HalfIsRoomy(k: nat, num: nat)
    requires num < ShrinkSize(Pow2(k)) && Pow2(k) > HT_DEFAULT_STARTING_BUCKETS
    ensures k > 2 && Pow2(k - 1) == Pow2(k) / 2 && num < EnlargeSize(Pow2(k - 1))
  {
    if k <= 2 { Pow2Bound(k, 2); }
    assert Pow2(k - 1) == 2 * Pow2(k - 2);
  }

  /** How far `maybe_shrink` goes down. */
  method ShrinkTarget(num_buckets: nat, num_remain: nat, ghost k: nat) returns (sz: nat, ghost j: nat)
    requires num_buckets == Pow2(k) && k > 0 && num_buckets > HT_DEFAULT_STARTING_BUCKETS
    ensures sz == Pow2(j) && HT_DEFAULT_STARTING_BUCKETS / 2 <= sz <= num_buckets / 2
    ensures sz <= HT_DEFAULT_STARTING_BUCKETS || num_remain * 0x400_0000 >= sz * 13421773
  {
    sz, j := num_buckets / 2, k - 1;
    while sz > HT_DEFAULT_STARTING_BUCKETS && num_remain * 0x400_0000 < sz * 13421773
      invariant sz == Pow2(j) && HT_DEFAULT_STARTING_BUCKETS / 2 <= sz <= num_buckets / 2
    {
      sz, j := sz / 2, j - 1;
    }
  }

  /** The least table from a target size on is of that size, or the least of all. */
  lemma LeastFrom(k: nat, num: nat, j: nat)
    requires Least(k, num, Pow2(j)) && Roomy(Pow2(k), num, Pow2(j)) && j >= 2
    ensures k == j || Least(k, num, 0)
  {
    if k > j {
      Pow2Bound(j, k - 1);
    } else if k < j {
      Pow2Order(k, j);
    }
  }

  /** A table with so many buckets in use can take `delta` keys more without any size overflowing. */
  predicate Growable(num_elements: nat, num_buckets: nat, delta: nat) {
    num_buckets <= 0x8000_0000_0000_0000 && num_elements + delta < 0x4000_0000_0000_0000
  }

  lemma DoubledFits(k: nat)
    requires Pow2(k) <= TOP
    ensures 2 * Pow2(k) <= TOP || Pow2(k) >= SIZE_MAX / 2
  {
    TopIsPow2();
    if k <= 62 {
      Pow2Bound(k + 1, 63);
    } else {
      Pow2Bound(63, k);
    }
  }

  /** The size `resize_delta` moves a table to, once it has decided to. */
  method GrowTarget(num_elements: nat, num_deleted: nat, delta: nat, num_buckets: nat) returns (resize_to: nat, ok: bool)
    requires num_deleted <= num_elements
    ensures ok ==> Roomy(resize_to, num_elements - num_deleted + delta, num_buckets) && resize_to <= TOP
    ensures Growable(num_elements, num_buckets, delta) ==> ok
  {
    var needed, overflow;
    ghost var k;
    var size := num_elements - num_deleted;
    resize_to, overflow, k := MinBuckets(size + delta, num_buckets);
    if overflow { return 0, false; }
    assert 2 * resize_to <= TOP || resize_to >= SIZE_MAX / 2 by { DoubledFits(k); }
    needed, overflow, k := MinBuckets(num_elements - num_deleted / 4 + delta, 0);
    if overflow { return 0, false; }
    ok := true;
    if resize_to < needed && resize_to < SIZE_MAX / 2 {
      if size + delta >= ShrinkSize(2 * resize_to) {
        resize_to := 2 * resize_to;
      }
    }
  }

  class DenseHashtable<K(==), V(0)> {
    const hash: K -> nat
    const empty_key: K
    const default_value: V
    const max_size: nat
    var delkey: Option<K>
    var table: array<Cell<K, V>>
    var num_buckets: nat
    var num_elements: nat
    var num_deleted: nat
    var enlarge_threshold: nat
    var shrink_threshold: nat
    var consider_shrink: bool
    ghost var contents: map<K, V>
    ghost var log: nat

    ghost predicate Valid()
      reads this, table
    {
      && table.Length == num_buckets && shrink_threshold == ShrinkSize(num_buckets)
      && StateOk(table[..], hash, empty_key, delkey, log, contents, num_elements, num_deleted,
                 enlarge_threshold)
    }

    /** The constructor and `set_empty_key`. */
    constructor (expected: nat, hash: K -> nat, empty_key: K, default_value: V, max_size: nat)
      requires Roomy(TOP, expected, 0)
      ensures Valid() && fresh(table) && contents == map[] && delkey == None
      ensures this.hash == hash && this.empty_key == empty_key && this.default_value == default_value
      ensures num_buckets == 32 || (expected > 0 && Roomy(num_buckets, expected, 0))
    {
      this.hash, this.empty_key, this.default_value := hash, empty_key, default_value;
      this.max_size := max_size;
      delkey := None;
      var n, overflow, k := MinBuckets(expected, 0);
      if expected == 0 {
        n, k := HT_DEFAULT_STARTING_BUCKETS, 5;
      }
      num_buckets := n;
      table := new Cell<K, V>[n](_ => Cell(empty_key, default_value));
      num_elements, num_deleted := 0, 0;
      enlarge_threshold, shrink_threshold, consider_shrink := EnlargeSize(n), ShrinkSize(n), false;
      contents := map[];
      log := k;
      new;
      assert Pow2(5) == 32;
      EmptyTableOk(table[..], hash, empty_key, delkey, log);
    }

    /** `size` */
    method Size() returns (n: nat)
      requires Valid()
      ensures n == |contents| == num_elements - num_deleted
    {
      SizeOfState(table[..], hash, empty_key, delkey, log, contents, num_elements, num_deleted,
        enlarge_threshold);
      n := num_elements - num_deleted;
    }

    /** A table moved to `min_buckets` buckets and swapped in; on overflow nothing happens. */
    method Rehash(wanted: nat) returns (ok: bool)
      requires Valid()
      modifies this
      ensures Valid() && contents == old(contents) && delkey == old(delkey)
      ensures ok <==> Roomy(TOP, |contents|, wanted)
      ensures ok ==> fresh(table) && num_deleted == 0 && num_elements == |contents| && num_buckets >= wanted
                     && num_buckets == Pow2(log) <= TOP && Roomy(num_buckets, |contents|, wanted)
                     && Least(log, |contents|, wanted) && !consider_shrink
      ensures !ok ==> table == old(table) && num_buckets == old(num_buckets) && num_elements == old(num_elements)
                      && num_deleted == old(num_deleted)
    {
      var size := Size();
      var t, count;
      ghost var k;
      t, count, ok, k := MovedTo(table, hash, empty_key, delkey, default_value, wanted, size, num_deleted, log, contents);
      if ok {
        Swap(t, count, k);
      }
    }

    /** `swap` with a freshly filled table, and `reset_thresholds`. */
    method Swap(t: array<Cell<K, V>>, count: nat, ghost k: nat)
      requires StateOk(t[..], hash, empty_key, delkey, k, contents, count, 0, EnlargeSize(t.Length))
      modifies this
      ensures Valid() && table == t && log == k && num_elements == count && num_deleted == 0 && !consider_shrink
      ensures contents == old(contents) && delkey == old(delkey)
    {
      table, num_elements, num_deleted, num_buckets := t, count, 0, t.Length;
      enlarge_threshold, shrink_threshold, consider_shrink := EnlargeSize(t.Length), ShrinkSize(t.Length), false;
      log := k;
    }

    /** The load is below a fifth and the table larger than at its start. */
    ghost predicate MayShrink()
      reads this
    {
      |contents| < num_buckets * 13421773 / 0x400_0000 && num_buckets > 32
    }

    /** The table is no larger than at its start, at least a fifth in use, or as small as can be. */
    ghost predicate ShrunkEnough()
      reads this
    {
      || num_buckets <= 32 || |contents| * 0x400_0000 >= num_buckets * 13421773
      || Least(log, |contents|, 0)
    }

    /** `maybe_shrink` */
    method MaybeShrink() returns (ok: bool, did: bool)
      requires Valid()
      modifies this
      ensures Valid() && (table == old(table) || fresh(table)) && contents == old(contents) && delkey == old(delkey)
      ensures did ==> num_deleted == 0
      ensures !did ==> table == old(table) && num_elements == old(num_elements) && num_deleted == old(num_deleted)
                       && num_buckets == old(num_buckets)
      ensures did ==> ok && num_elements <= old(num_elements) && num_buckets <= TOP
      ensures did ==> num_buckets <= old(num_buckets) / 2 && ShrunkEnough()
      ensures ok ==> !consider_shrink && did == old(MayShrink())
      ensures Growable(old(num_elements), old(num_buckets), 0) ==> ok
    {
      ok, did := true, false;
      var num_remain := Size();
      if shrink_threshold > 0 && num_remain < shrink_threshold && num_buckets > HT_DEFAULT_STARTING_BUCKETS {
        ghost var k := log;
        HalfIsRoomy(k, num_remain);
        var sz;
        ghost var j;
        sz, j := ShrinkTarget(num_buckets, num_remain, k);
        ok := Rehash(sz);
        if !ok { return; }
        LeastMeans(log, num_remain, sz, k - 1);
        LeastFrom(log, num_remain, j);
        did := true;
      }
      consider_shrink := false;
    }

    /** The growing half of `resize_delta`. */
    method GrowFor(delta: nat) returns (ok: bool, did: bool)
      requires Valid()
      modifies this
      ensures Valid() && (table == old(table) || fresh(table)) && contents == old(contents) && delkey == old(delkey)
      ensures !did ==> table == old(table) && num_elements == old(num_elements) && num_deleted == old(num_deleted)
      ensures ok ==> 2 * (num_elements + delta) <= num_buckets
      ensures Growable(old(num_elements), old(num_buckets), delta) ==> ok
    {
      var needed, overflow, k := MinBuckets(num_elements + delta, 0);
      if overflow { return false, false; }
      if needed <= num_buckets { return true, false; }
      var size := Size();
      var resize_to;
      resize_to, ok := GrowTarget(num_elements, num_deleted, delta, num_buckets);
      if !ok { return false, false; }
      ok := Rehash(resize_to);
      did := ok;
    }

    /** `resize_delta`: room for `delta` more keys, growing if need be. */
    method ResizeDelta(delta: nat) returns (ok: bool, did: bool)
      requires Valid()
      modifies this
      ensures Valid() && (table == old(table) || fresh(table)) && contents == old(contents) && delkey == old(delkey)
      ensures !did ==> table == old(table) && num_elements == old(num_elements) && num_deleted == old(num_deleted)
      ensures ok ==> 2 * (num_elements + delta) <= num_buckets
      ensures Growable(old(num_elements), old(num_buckets), delta) ==> ok
    {
      ok, did := true, false;
      if consider_shrink {
        ok, did := MaybeShrink();
        if !ok { return; }
      }
      if num_elements + delta >= SIZE_MAX { return false, did; }
      if num_buckets >= HT_MIN_BUCKETS && num_elements + delta <= enlarge_threshold { return; }
      var grew;
      ok, grew := GrowFor(delta);
      did := did || grew;
    }

    /** `find`: the bucket of a key, or `num_buckets` for `end()`. */
    method Find(key: K) returns (pos: nat)
      requires Valid()
      ensures pos <= num_buckets && (pos < num_buckets) == (key in contents)
      ensures pos < num_buckets ==> table[pos].key == key && table[pos].value == contents[key]
    {
      var size := Size();
      if size == 0 {
        assert contents == map[];
        return num_buckets;
      }
      var first, second := Position(key);
      pos := if first == ILLEGAL_BUCKET then num_buckets else first;
    }

    method Position(key: K) returns (first: int, second: int)
      requires Valid()
      ensures (first != ILLEGAL_BUCKET) == (key in contents)
      ensures first != ILLEGAL_BUCKET ==>
        0 <= first < table.Length && table[first].key == key && table[first].value == contents[key]
      ensures first == ILLEGAL_BUCKET ==> Free(second, key)
    {
      AtLeastFour(log);
      first, second := FindPosition(table, hash, empty_key, delkey, num_deleted, key, log, contents);
    }

    /** A bucket where a new key may go. */
    ghost predicate Free(pos: int, key: K)
      reads this, table
    {
      && 0 <= pos < table.Length && !Real(table[pos].key, empty_key, delkey)
      && Reachable(table[..], hash(key), pos, empty_key)
    }

    /** `insert_at` */
    method InsertAt(pos: nat, key: K, value: V) returns (ok: bool)
      requires Valid() && Real(key, empty_key, delkey) && key !in contents && Free(pos, key)
      requires 2 * (num_elements + 1) <= num_buckets
      modifies this, table
      ensures Valid() && table == old(table) && delkey == old(delkey)
      ensures ok <==> |old(contents)| < max_size
      ensures contents == if ok then old(contents)[key := value] else old(contents)
      ensures ok ==> pos < table.Length && table[pos] == Cell(key, value)
    {
      var size := Size();
      if size >= max_size { return false; }
      ghost var t := table[..];
      NotDeleted(t, delkey, num_deleted, pos);
      CountPut(t, empty_key, delkey, num_elements, num_deleted, pos, key, value, t[pos := Cell(key, value)]);
      PutOk(t, hash, empty_key, delkey, log, contents, pos, key, value, t[pos := Cell(key, value)]);
      if num_deleted > 0 && delkey == Some(table[pos].key) {
        num_deleted := num_deleted - 1;
      } else {
        num_elements := num_elements + 1;
      }
      table[pos] := Cell(key, value);
      contents := contents[key := value];
      assert table[..] == t[pos := Cell(key, value)];
      ok := true;
    }

    /** `insert_noresize` */
    method InsertNoResize(key: K, value: V) returns (ok: bool, inserted: bool, pos: nat)
      requires Valid() && Real(key, empty_key, delkey) && 2 * (num_elements + 1) <= num_buckets
      modifies this, table
      ensures Valid() && table == old(table) && delkey == old(delkey)
      ensures ok <==> key in old(contents) || |old(contents)| < max_size
      ensures contents == if inserted then old(contents)[key := value] else old(contents)
      ensures ok ==> inserted == (key !in old(contents))
      ensures ok ==> key in contents && pos < table.Length && table[pos] == Cell(key, contents[key])
      ensures !ok ==> !inserted
    {
      var first, second := Position(key);
      if first != ILLEGAL_BUCKET {
        return true, false, first;
      }
      pos := second;
      ok := InsertAt(pos, key, value);
      inserted := ok;
    }

    /** `insert`: the pair, unless its key is in the table already. */
    method Insert(key: K, value: V) returns (ok: bool, inserted: bool, pos: nat)
      requires Valid() && Real(key, empty_key, delkey)
      modifies this, table
      ensures Valid() && (table == old(table) || fresh(table)) && delkey == old(delkey)
      ensures contents == if inserted then old(contents)[key := value] else old(contents)
      ensures ok ==> inserted == (key !in old(contents))
      ensures ok ==> key in contents && pos < table.Length && table[pos] == Cell(key, contents[key])
      ensures !ok ==> !inserted
      ensures Growable(old(num_elements), old(num_buckets), 1) ==>
        (ok <==> key in old(contents) || |old(contents)| < max_size)
    {
      var did;
      ok, did := ResizeDelta(1);
      if !ok { return false, false, 0; }
      ok, inserted, pos := InsertNoResize(key, value);
    }

    /** `find_or_insert`: looks first, so that a key already there never resizes. */
    method FindOrInsert(key: K) returns (ok: bool, pos: nat)
      requires Valid() && Real(key, empty_key, delkey)
      modifies this, table
      ensures Valid() && (table == old(table) || fresh(table)) && delkey == old(delkey)
      ensures ok ==> contents == (if key in old(contents) then old(contents) else old(contents)[key := default_value])
      ensures ok ==> pos < table.Length && table[pos] == Cell(key, contents[key])
      ensures !ok ==> contents == old(contents)
      ensures Growable(old(num_elements), old(num_buckets), 1) ==>
        (ok <==> key in old(contents) || |old(contents)| < max_size)
    {
      var first, second := Position(key);
      if first != ILLEGAL_BUCKET { return true, first; }
      var did;
      ok, did := ResizeDelta(1);
      if !ok { return false, 0; }
      if did {
        var inserted;
        ok, inserted, pos := InsertNoResize(key, default_value);
      } else {
        pos := second;
        ok := InsertAt(pos, key, default_value);
      }
    }

    /** `erase`: how many were erased. The bucket stays in every probe sequence it is on. */
    method Erase(key: K) returns (count: nat)
      requires Valid() && Real(key, empty_key, delkey) && (key in contents ==> delkey.Some?)
      modifies this, table
      ensures Valid() && table == old(table) && delkey == old(delkey)
      ensures contents == old(contents) - {key} && count == if key in old(contents) then 1 else 0
      ensures num_deleted == old(num_deleted) + count
    {
      var pos := Find(key);
      if pos == num_buckets { return 0; }
      SetDeleted(pos);
      consider_shrink := true;
      count := 1;
    }

    /** `set_deleted` and its count. */
    method SetDeleted(pos: nat)
      requires Valid() && delkey.Some? && pos < table.Length && Real(table[pos].key, empty_key, delkey)
      modifies `num_deleted, `contents, table
      ensures Valid() && contents == old(contents) - {old(table[pos].key)} && num_deleted == old(num_deleted) + 1
    {
      ghost var t, c := table[..], contents - {table[pos].key};
      ghost var t' := t[pos := Cell(delkey.value, t[pos].value)];
      BuryOk(t, hash, empty_key, delkey, log, contents, pos, t');
      CountBury(t, empty_key, delkey, num_elements, num_deleted, pos, t');
      SizeIsCount(t', hash, empty_key, delkey, log, c, num_elements, num_deleted + 1);
      table[pos] := Cell(delkey.value, table[pos].value);
      assert table[..] == t';
      num_deleted := num_deleted + 1;
      contents := c;
    }

    /** `squash_deleted` */
    method SquashDeleted() returns (ok: bool)
      requires Valid()
      modifies this
      ensures Valid() && (table == old(table) || fresh(table)) && contents == old(contents) && delkey == old(delkey)
      ensures ok ==> num_deleted == 0
      ensures Growable(old(num_elements), old(num_buckets), 0) ==> ok
    {
      ok := true;
      if num_deleted > 0 {
        var wanted, overflow, k := MinBuckets(num_elements, num_buckets);
        if overflow { return false; }
        SizeOfState(table[..], hash, empty_key, delkey, log, contents, num_elements, num_deleted,
          enlarge_threshold);
        ok := Rehash(wanted);
      }
    }

    /** `set_deleted_key`: a key not in use becomes the mark, once the old marks are gone. */
    method SetDeletedKey(key: K) returns (ok: bool)
      requires Valid() && key != empty_key && key !in contents
      modifies this
      ensures Valid() && (table == old(table) || fresh(table)) && contents == old(contents)
      ensures delkey == if ok then Some(key) else old(delkey)
      ensures Growable(old(num_elements), old(num_buckets), 0) ==> ok
    {
      ok := SquashDeleted();
      if !ok { return; }
      NewMark(table[..], hash, empty_key, delkey, log, contents, num_elements, key);
      delkey := Some(key);
    }

    /** `clear` */
    method Clear()
      requires Valid()
      modifies this
      ensures Valid() && (table == old(table) || fresh(table)) && contents == map[] && delkey == old(delkey)
    {
      TopIsPow2();
      var n, overflow, k := MinBuckets(0, 0);
      if num_elements == 0 && n == num_buckets {
        var size := Size();
        assert contents == map[];
        return;
      }
      var t := new Cell<K, V>[n](_ => Cell(empty_key, default_value));
      EmptyTableOk(t[..], hash, empty_key, delkey, k);
      contents := map[];
      Swap(t, 0, k);
    }
  }

  lemma AtLeastFour(k: nat)
    requires k >= 2
    ensures Pow2(k) >= 4
  {
    assert Pow2(2) == 4;
    Pow2Bound(2, k);
  }

  /** With no tombstones, a key that is not in the table may mark deleted buckets. */
  lemma NewMark<K, V>(t: seq<Cell<K, V>>, hash: K -> nat, e: K, d: Option<K>, k: nat, c: map<K, V>, n: nat, key: K)
    requires TableOk(t, hash, e, d, k, c) && Counted(t, e, d, n, 0) && key != e && key !in c
    ensures TableOk(t, hash, e, Some(key), k, c) && Counted(t, e, Some(key), n, 0)
  {
    forall b | 0 <= b < |t| ensures Real(t[b].key, e, d) == Real(t[b].key, e, Some(key)) && t[b].key != key {
      NotDeleted(t, d, 0, b);
    }
    assert Tombs(t, Some(key)) == {};
    forall x <- c ensures Real(x, e, Some(key)) && exists b :: 0 <= b < |t| && t[b].key == x {
    }
  }
}
