/** The 32-bit words in which src/dlmalloc/dlmalloc.c marks the bins in use, and the tricks it
    finds bins with, against the sets of bin numbers module `Bins` has in their place.

    A word is the sequence of its bits, bit 0 first. */
module BinMaps {
  import opened Bins

  type Word = seq<bool>

  predicate IsWord(x: Word) {
    |x| == 32
  }

  // ----- machine operations -----

  function And(x: Word, y: Word): (r: Word)
    requires IsWord(x) && IsWord(y)
    ensures IsWord(r)
    ensures forall i :: 0 <= i < 32 ==> r[i] == (x[i] && y[i])
  {
    seq(32, i requires 0 <= i < 32 => x[i] && y[i])
  }

  function Or(x: Word, y: Word): (r: Word)
    requires IsWord(x) && IsWord(y)
    ensures IsWord(r)
    ensures forall i :: 0 <= i < 32 ==> r[i] == (x[i] || y[i])
  {
    seq(32, i requires 0 <= i < 32 => x[i] || y[i])
  }

  function Not(x: Word): (r: Word)
    requires IsWord(x)
    ensures IsWord(r)
    ensures forall i :: 0 <= i < 32 ==> r[i] == !x[i]
  {
    seq(32, i requires 0 <= i < 32 => !x[i])
  }

  /** One is added from bit `k` on; what is carried out of the top is lost. */
  function Carry(x: Word, k: nat): (r: Word)
    requires IsWord(x) && k <= 32
    ensures IsWord(r)
    decreases 32 - k
  {
    if k == 32 then x else if !x[k] then x[k := true] else Carry(x[k := false], k + 1)
  }

  /** `-x`: the complement and one. */
  function Negate(x: Word): (r: Word)
    requires IsWord(x)
    ensures IsWord(r)
  {
    Carry(Not(x), 0)
  }

  function ShiftLeft(x: Word, n: nat): (r: Word)
    requires IsWord(x) && n < 32
    ensures IsWord(r)
    ensures forall i :: 0 <= i < 32 ==> r[i] == (i >= n && x[i - n])
  {
    seq(32, i requires 0 <= i < 32 => i >= n && x[i - n])
  }

  function ShiftRight(x: Word, n: nat): (r: Word)
    requires IsWord(x) && n < 32
    ensures IsWord(r)
    ensures forall i :: 0 <= i < 32 ==> r[i] == (i + n < 32 && x[i + n])
  {
    seq(32, i requires 0 <= i < 32 => i + n < 32 && x[i + n])
  }

  function Zero(): (r: Word)
    ensures IsWord(r) && forall i :: 0 <= i < 32 ==> !r[i]
  {
    seq(32, _ => false)
  }

  // ----- the macros -----

  /** `idx2bit` */
  function BinBit(i: nat): (r: Word)
    requires i < 32
    ensures IsWord(r)
    ensures forall j :: 0 <= j < 32 ==> r[j] == (j == i)
  {
    Zero()[i := true]
  }

  /** `least_bit` */
  function LeastBit(x: Word): (r: Word)
    requires IsWord(x)
    ensures IsWord(r)
  {
    And(x, Negate(x))
  }

  /** `left_bits` */
  function LeftBits(x: Word): (r: Word)
    requires IsWord(x)
    ensures IsWord(r)
  {
    Or(ShiftLeft(x, 1), Negate(ShiftLeft(x, 1)))
  }

  /** `compute_bit2idx` by `bsf`: the number of the lowest bit set. */
  function LowestSet(x: Word, from: nat): (i: nat)
    requires IsWord(x) && from < 32 && exists j :: from <= j < 32 && x[j]
    ensures from <= i < 32 && x[i] && forall j :: from <= j < i ==> !x[j]
    decreases 32 - from
  {
    if x[from] then from else LowestSet(x, from + 1)
  }

  // ----- what they compute -----

  lemma {:induction false} CarryAt(x: Word, k: nat, n: nat)
    requires IsWord(x) && k <= n < 32 && !x[n] && forall j :: k <= j < n ==> x[j]
    ensures forall j :: 0 <= j < 32 ==> Carry(x, k)[j] == if k <= j < n then false else if j == n then true else x[j]
    decreases n - k
  {
    if k < n { CarryAt(x[k := false], k + 1, n); }
  }

  lemma {:induction false} CarryOut(x: Word, k: nat)
    requires IsWord(x) && k <= 32 && forall j :: k <= j < 32 ==> x[j]
    ensures forall j :: 0 <= j < 32 ==> Carry(x, k)[j] == (j < k && x[j])
    decreases 32 - k
  {
    if k < 32 { CarryOut(x[k := false], k + 1); }
  }

  /** `x & -x` of a word with a bit set is its lowest bit alone, that of the bin `compute_bit2idx` names. */
  lemma LeastBitIsLowest(x: Word)
    requires IsWord(x) && exists j :: 0 <= j < 32 && x[j]
    ensures LeastBit(x) == BinBit(LowestSet(x, 0))
    ensures LowestSet(LeastBit(x), 0) == LowestSet(x, 0)
  {
    CarryAt(Not(x), 0, LowestSet(x, 0));
  }

  /** `left_bits` of one bin's bit covers exactly the bins above it. */
  lemma LeftBitsAbove(i: nat)
    requires i < 32
    ensures forall j :: 0 <= j < 32 ==> LeftBits(BinBit(i))[j] == (j > i)
  {
    var x := ShiftLeft(BinBit(i), 1);
    if i < 31 {
      CarryAt(Not(x), 0, i + 1);
    } else {
      CarryOut(Not(x), 0);
    }
  }

  // ----- words as sets of bins -----

  ghost function Marks(x: Word): (s: set<nat>)
    requires IsWord(x)
    ensures forall i: nat :: i in s <==> i < 32 && x[i]
  {
    set i: nat | i < 32 && x[i]
  }

  /** `mark_smallmap`, `mark_treemap` and `clear_smallmap`, `clear_treemap` */
  lemma MarkAndClear(x: Word, i: nat)
    requires IsWord(x) && i < 32
    ensures Marks(Or(x, BinBit(i))) == Marks(x) + {i}
    ensures Marks(And(x, Not(BinBit(i)))) == Marks(x) - {i}
  {
  }

  /** `smallmap_is_marked`, `treemap_is_marked` */
  lemma IsMarked(x: Word, i: nat)
    requires IsWord(x) && i < 32
    ensures And(x, BinBit(i)) != Zero() <==> i in Marks(x)
  {
    assert And(x, BinBit(i))[i] == x[i];
    assert !x[i] ==> And(x, BinBit(i)) == Zero();
  }

  lemma NextMarkedUnique(s: set<nat>, i: nat, r: nat)
    requires i <= r < 32 && r in s && forall j :: i <= j < r ==> j !in s
    ensures NextMarked(s, i) == r
  {
  }

  lemma SomeBit(x: Word)
    requires IsWord(x) && x != Zero()
    ensures exists j :: 0 <= j < 32 && x[j]
  {
    var j :| 0 <= j < 32 && x[j] != Zero()[j];
  }

  /** The bin `tmalloc_small` starts at: the least bit of a map in use. */
  lemma LeastMarked(x: Word)
    requires IsWord(x) && x != Zero()
    ensures exists j :: 0 <= j < 32 && LeastBit(x)[j]
    ensures NextMarked(Marks(x), 0) == LowestSet(LeastBit(x), 0)
  {
    SomeBit(x);
    LeastBitIsLowest(x);
    NextMarkedUnique(Marks(x), 0, LowestSet(x, 0));
  }

  /** The bin `tmalloc_large` turns to behind bin `i`: the least bit of the map and `left_bits`. */
  lemma NextMarkedAbove(x: Word, i: nat, left: Word)
    requires IsWord(x) && IsWord(left)
    requires i < 32 && left == And(LeftBits(BinBit(i)), x)
    ensures left == Zero() ==> NextMarked(Marks(x), i + 1) == 32
    ensures left != Zero() ==> exists j :: 0 <= j < 32 && LeastBit(left)[j]
    ensures left != Zero() ==> NextMarked(Marks(x), i + 1) == LowestSet(LeastBit(left), 0)
  {
    LeftBitsAbove(i);
    if left == Zero() {
      assert forall j: nat :: i < j < 32 ==> left[j] == x[j];
    } else {
      LeastMarked(left);
      NextMarkedUnique(Marks(x), i + 1, NextMarked(Marks(left), 0));
    }
  }

  /** The mask of the bins above `idx`, on the map shifted down and up again. */
  lemma MaskedSmall(x: Word, idx: nat, left: Word)
    requires IsWord(x) && idx < 32
    requires left == And(ShiftLeft(ShiftRight(x, idx), idx), LeftBits(BinBit(idx)))
    ensures left == And(LeftBits(BinBit(idx)), x)
    ensures !x[idx] && ShiftRight(x, idx) != Zero() ==> left != Zero()
  {
    LeftBitsAbove(idx);
    var mask := LeftBits(BinBit(idx));
    assert forall j :: 0 <= j < 32 ==> left[j] == (x[j] && mask[j]);
    if !x[idx] && ShiftRight(x, idx) != Zero() {
      SomeBit(ShiftRight(x, idx));
      var j :| 0 <= j < 32 && ShiftRight(x, idx)[j];
      assert left[idx + j];
    }
  }

  /** The small bin `mspace_malloc` takes a chunk from, as it computes it: the exact one or the next if
      `smallbits & 3` says so, else that of the least bit above. 32 if `smallbits` is zero. */
  function SmallBin(x: Word, idx: nat): nat
    requires IsWord(x) && idx < 32
  {
    var smallbits := ShiftRight(x, idx);
    if smallbits[0] || smallbits[1] then
      if smallbits[0] then idx else idx + 1
    else if smallbits != Zero() then
      var leftbits := And(ShiftLeft(smallbits, idx), LeftBits(BinBit(idx)));
      MaskedSmall(x, idx, leftbits);
      LeastMarked(leftbits);
      LowestSet(LeastBit(leftbits), 0)
    else
      32
  }

  /** It is the first bin in use from `idx` on. */
  lemma SmallBinIsNext(x: Word, idx: nat)
    requires IsWord(x) && idx < 32
    ensures SmallBin(x, idx) == NextMarked(Marks(x), idx)
  {
    var left := And(ShiftLeft(ShiftRight(x, idx), idx), LeftBits(BinBit(idx)));
    MaskedSmall(x, idx, left);
    NextMarkedAbove(x, idx, left);
    assert ShiftRight(x, idx)[0] == x[idx];
    if !x[idx] && ShiftRight(x, idx) == Zero() {
      forall j: nat | idx <= j < 32 ensures !x[j] {
        assert !ShiftRight(x, idx)[j - idx];
      }
    }
  }
}
