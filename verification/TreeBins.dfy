/** Which tree bin a size belongs to, and the best-fit search over the bins
    (src/dlmalloc/dlmalloc.c, `compute_tree_index`, `tmalloc_large`, `tmalloc_small`). */
module TreeBins {
  import opened Bits
  import opened Trie

  /** `compute_tree_index`, with its narrowing of `S >> 8` to 32 bits. */
  function ComputeTreeIndex(size: nat): nat {
    var x := (size / 256) % 0x1_0000_0000;
    if x == 0 then 0
    else if x > 0xFFFF then NTREEBINS - 1
    else
      var k := HighBit(x);
      2 * k + Bit(size, k + 7)
  }

  /** `minsize_for_tree_index` */
  function MinSize(i: nat): nat {
    Pow2(i / 2 + 8) + (i % 2) * Pow2(i / 2 + 7)
  }

  /** The sizes that belong in bin `i`; the last bin has no upper limit. */
  predicate Belongs(size: nat, i: nat) {
    MinSize(i) <= size && (i < NTREEBINS - 1 ==> size < MinSize(i + 1))
  }

  lemma MinSizeStep(i: nat)
    ensures MinSize(i + 1) == MinSize(i) + Pow2(i / 2 + 7)
  {
    var k := i / 2;
    assert Pow2(k + 8) == 2 * Pow2(k + 7) && Pow2(k + 9) == 2 * Pow2(k + 8);
    if i % 2 == 0 {
      assert (i + 1) / 2 == k && (i + 1) % 2 == 1;
    } else {
      assert (i + 1) / 2 == k + 1 && (i + 1) % 2 == 0;
    }
  }

  lemma {:induction false} MinSizeOrder(i: nat, j: nat)
    requires i < j
    ensures MinSize(i) < MinSize(j)
    decreases j
  {
    MinSizeStep(j - 1);
    if i < j - 1 { MinSizeOrder(i, j - 1); }
  }

  /** A size belongs in one bin only. */
  lemma BelongsUnique(size: nat, i: nat, j: nat)
    requires i < NTREEBINS && j < NTREEBINS && Belongs(size, i) && Belongs(size, j)
    ensures i == j
  {
    if i < j && i + 1 < j { MinSizeOrder(i + 1, j); }
    if j < i && j + 1 < i { MinSizeOrder(j + 1, i); }
  }

  lemma LastBinStart()
    ensures MinSize(NTREEBINS - 1) == 0xC0_0000 && MinSize(0) == 256
  {
    assert Pow2(8) == 256;
    Pow2Add(8, 8);
    assert Pow2(6) == 64;
    Pow2Add(16, 6);
    Pow2Add(16, 7);
  }

  /** While `S >> 8` fits in 32 bits the index is that of the bin the size belongs in. */
  lemma IndexCorrect(size: nat)
    requires 256 <= size < 0x100_0000_0000
    ensures ComputeTreeIndex(size) < NTREEBINS && Belongs(size, ComputeTreeIndex(size))
  {
    LastBinStart();
    var x := size / 256;
    assert x % 0x1_0000_0000 == x;
    if x <= 0xFFFF {
      NarrowIndex(size, x);
    }
  }

  lemma HighBitOf16(x: nat)
    requires 0 < x <= 0xFFFF
    ensures HighBit(x) < 16
  {
    HighBitBounds(x);
    assert Pow2(8) == 256;
    Pow2Add(8, 8);
    Pow2Smaller(HighBit(x), 16);
  }

  lemma Pow2Scaled(k: nat)
    ensures Pow2(k + 8) == 256 * Pow2(k) && Pow2(k + 7) == 128 * Pow2(k)
  {
    Pow2Add(k, 7);
    assert Pow2(7) == 128;
  }

  lemma NarrowIndex(size: nat, x: nat)
    requires x == size / 256 && 0 < x <= 0xFFFF
    ensures HighBit(x) < 16
    ensures Belongs(size, 2 * HighBit(x) + Bit(size, HighBit(x) + 7))
  {
    var k := HighBit(x);
    HighBitOf16(x);
    HighBitBounds(x);
    Pow2Scaled(k);
    BitIsHalf(size, 1, k + 7);
    IndexOfHalf(size, k, Bit(size, k + 7));
  }

  lemma IndexOfHalf(size: nat, k: nat, half: nat)
    requires Pow2(k + 8) <= size < 2 * Pow2(k + 8)
    requires half == if size >= Pow2(k + 8) + Pow2(k + 7) then 1 else 0
    ensures Belongs(size, 2 * k + half)
  {
    HalfOfIndex(k, half);
    MinSizeOf(2 * k + half, k);
    MinSizeStep(2 * k + half);
    assert Pow2(k + 8) == 2 * Pow2(k + 7);
  }

  lemma HalfOfIndex(k: nat, half: nat)
    requires half < 2
    ensures (2 * k + half) / 2 == k && (2 * k + half) % 2 == half
  {
  }

  lemma MinSizeOf(i: nat, k: nat)
    requires i / 2 == k
    ensures MinSize(i) == if i % 2 == 0 then Pow2(k + 8) else Pow2(k + 8) + Pow2(k + 7)
  {
  }

  lemma LiteralPowers()
    ensures Pow2(14) == 0x4000 && Pow2(15) == 0x8000 && Pow2(22) == 0x40_0000
  {
    assert Pow2(7) == 128 && Pow2(8) == 256;
    Pow2Add(7, 7);
    Pow2Add(7, 8);
    Pow2Add(7, 15);
  }

  /** Bit 22 of a size whose narrowed `S >> 8` has its highest bit at 15 is that word's bit 14. */
  lemma HalfOfNarrowed(size: nat, x: nat)
    requires x == (size / 256) % 0x1_0000_0000 && 0x8000 <= x <= 0xFFFF
    ensures Bit(size, 22) == if x >= 0xC000 then 1 else 0
  {
    LiteralPowers();
    var q := size / 0x80_0000;
    assert size / 256 == 0x1_0000_0000 * (size / 256 / 0x1_0000_0000) + x;
    assert size - q * 0x80_0000 == 256 * (x - 0x8000) + size % 256;
    BitIsHalf(size, q, 22);
  }

  /** Which sizes come out as the last bin. */
  lemma LastBinIff(size: nat)
    ensures ComputeTreeIndex(size) == NTREEBINS - 1 <==> (size / 256) % 0x1_0000_0000 >= 0xC000
  {
    var x := (size / 256) % 0x1_0000_0000;
    LiteralPowers();
    if 0x8000 <= x <= 0xFFFF {
      HighBitUnique(x, 15);
      HalfOfNarrowed(size, x);
    } else if 0 < x < 0x8000 {
      HighBitBounds(x);
      Pow2Smaller(HighBit(x), 15);
    }
  }

  /** Sizes of 2^40 and more are narrowed; the index is then right exactly when
      the low 32 bits of `S >> 8` are themselves large enough for the last bin. */
  lemma IndexCorrectIff(size: nat)
    requires size >= 256
    ensures ComputeTreeIndex(size) < NTREEBINS
    ensures Belongs(size, ComputeTreeIndex(size)) <==>
      size < 0x100_0000_0000 || (size / 256) % 0x1_0000_0000 >= 0xC000
  {
    var x := (size / 256) % 0x1_0000_0000;
    LastBinIff(size);
    if 0 < x <= 0xFFFF { NarrowIndex(256 * x, x); }
    if size < 0x100_0000_0000 {
      IndexCorrect(size);
    } else {
      LastBinStart();
      var i := ComputeTreeIndex(size);
      if i < NTREEBINS - 1 && i + 1 < NTREEBINS - 1 { MinSizeOrder(i + 1, NTREEBINS - 1); }
    }
  }

  /** 2^40 is put in bin 0, among sizes below 384. */
  lemma NarrowedIndexFails()
    ensures ComputeTreeIndex(0x100_0000_0000) == 0 && !Belongs(0x100_0000_0000, 0)
  {
    assert (0x100_0000_0000 / 256) % 0x1_0000_0000 == 0;
    IndexCorrectIff(0x100_0000_0000);
  }

  // ----- the range of a bin, and the bit its root branches on -----

  function BinLow(i: nat): nat {
    if i == NTREEBINS - 1 then 0 else MinSize(i)
  }

  /** The range of bin `i` is `Pow2(BinBits(i))` wide. */
  function BinBits(i: nat): nat {
    if i == NTREEBINS - 1 then 64 else i / 2 + 7
  }

  /** `leftshift_for_tree_index` */
  function LeftShift(i: nat): nat
    requires i < NTREEBINS
  {
    if i == NTREEBINS - 1 then 0 else 63 - (i / 2 + 6)
  }

  lemma BelongsInRange(size: nat, i: nat)
    requires i < NTREEBINS && Belongs(size, i) && size < WORD
    ensures BinLow(i) <= size < BinLow(i) + Pow2(BinBits(i))
  {
    if i == NTREEBINS - 1 { TopIsPow2(); } else { MinSizeStep(i); }
  }

  /** The start of a bin's range is a multiple of its width. */
  lemma BinLowMultiple(i: nat) returns (q: nat)
    requires i < NTREEBINS
    ensures BinLow(i) == q * Pow2(BinBits(i))
  {
    if i == NTREEBINS - 1 {
      q := 0;
    } else {
      q := 2 + i % 2;
      assert Pow2(i / 2 + 8) == 2 * Pow2(i / 2 + 7);
    }
  }
}
