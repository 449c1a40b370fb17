/** Triangular probing over a power-of-two table
    (src/sparsehash-c11/sparsehash/internal/densehashtable.h, `JUMP_`). */
module Probing {
  import opened Bits
  import opened Sets

  function Triangle(i: nat): nat {
    if i == 0 then 0 else Triangle(i - 1) + i
  }

  /** The bucket looked at after `i` probes of a key with this hash. Masking by
      one less than a power of two is the remainder. */
  function Probe(hash: nat, i: nat, n: nat): (b: nat)
    requires n > 0
    ensures b < n
  {
    (hash + Triangle(i)) % n
  }

  lemma {:induction false} TriangleDoubled(i: nat)
    ensures 2 * Triangle(i) == i * (i + 1)
  {
    if i > 0 { TriangleDoubled(i - 1); }
  }

  lemma AddMod(a: nat, b: nat, n: nat)
    requires n > 0
    ensures (a % n + b) % n == (a + b) % n
  {
    var q, r := Divide(a % n + b, n);
    DivUnique(a % n + b, q, r, n);
    assert a == (a / n) * n + a % n;
    MulDistrib(a / n, q, n);
    DivUnique(a + b, a / n + q, r, n);
  }

  /** One more probe goes that many buckets further. */
  lemma ProbeStep(hash: nat, i: nat, n: nat)
    requires n > 0
    ensures (Probe(hash, i, n) + (i + 1)) % n == Probe(hash, i + 1, n)
  {
    AddMod(hash + Triangle(i), i + 1, n);
  }

  /** An odd factor adds no power of two. */
  lemma {:induction false} OddCancels(a: nat, b: nat, c: int, k: nat) returns (d: nat)
    requires a % 2 == 1 && a * b == c * Pow2(k)
    ensures b == d * Pow2(k)
    decreases k
  {
    if k == 0 {
      d := b;
    } else {
      var m := c * Pow2(k - 1);
      assert c * Pow2(k) == 2 * m;
      EvenFactor(a, b, m);
      d := OddCancels(a, b / 2, c, k - 1);
      assert d * Pow2(k) == 2 * (d * Pow2(k - 1));
    }
  }

  lemma EvenFactor(a: nat, b: nat, m: int)
    requires a % 2 == 1 && a * b == 2 * m
    ensures b % 2 == 0 && a * (b / 2) == m
  {
    var x, y := a / 2, b / 2;
    assert a == 2 * x + 1 && b == 2 * y + b % 2;
    assert a * b == 2 * (x * b) + b;
    assert a * b == 2 * (a * y) + a * (b % 2);
  }

  /** Equal remainders differ by a multiple. */
  lemma SameRemainder(a: nat, b: nat, n: nat) returns (c: int)
    requires n > 0 && a % n == b % n
    ensures b - a == c * n
  {
    c := b / n - a / n;
    MulDistrib(c, a / n, n);
  }

  lemma TriangleGap(i: nat, j: nat)
    requires i <= j
    ensures 2 * (Triangle(j) - Triangle(i)) == (j - i) * (j + i + 1)
  {
    TriangleDoubled(i);
    TriangleDoubled(j);
  }

  lemma PositiveMultiple(x: nat, d: nat, p: nat)
    requires x == d * p && x > 0
    ensures x >= p
  {
    assert d > 0;
    MulMonotone(0, d, p);
  }

  /** Two factors of different parity, neither reaching `2^k`, give no multiple of it. */
  lemma NoMultiple(u: nat, v: nat, c: int, k: nat)
    requires 0 < u < Pow2(k) && 0 < v < Pow2(k) && u % 2 != v % 2
    ensures u * v != c * Pow2(k)
  {
    if u * v == c * Pow2(k) {
      if u % 2 == 1 {
        var d := OddCancels(u, v, c, k);
        PositiveMultiple(v, d, Pow2(k));
      } else {
        var d := OddCancels(v, u, c, k);
        PositiveMultiple(u, d, Pow2(k));
      }
    }
  }

  /** No bucket is probed twice in the first `2^k` probes. */
  lemma ProbesDistinct(hash: nat, k: nat, i: nat, j: nat)
    requires i < j < Pow2(k)
    ensures Probe(hash, i, Pow2(k)) != Probe(hash, j, Pow2(k))
  {
    if Probe(hash, i, Pow2(k)) == Probe(hash, j, Pow2(k)) {
      var c := SameRemainder(hash + Triangle(i), hash + Triangle(j), Pow2(k));
      TriangleGap(i, j);
      assert c * Pow2(k + 1) == 2 * (c * Pow2(k)) by { MulAssoc(c, 2, Pow2(k)); MulAssoc(2, c, Pow2(k)); }
      ParityDiffers(i, j);
      NoMultiple(j - i, j + i + 1, c, k + 1);
    }
  }

  lemma ParityDiffers(i: nat, j: nat)
    requires i <= j
    ensures (j - i) % 2 != (j + i + 1) % 2
  {
    assert j + i + 1 == (j - i) + 2 * i + 1;
  }

  ghost function Probed(hash: nat, m: nat, n: nat): set<nat>
    requires n > 0
  {
    set i | 0 <= i < m :: Probe(hash, i, n)
  }

  lemma {:induction false} ProbedSize(hash: nat, k: nat, m: nat)
    requires m <= Pow2(k)
    ensures |Probed(hash, m, Pow2(k))| == m
  {
    if m > 0 {
      ProbedSize(hash, k, m - 1);
      var b := Probe(hash, m - 1, Pow2(k));
      assert b !in Probed(hash, m - 1, Pow2(k)) by {
        forall i | 0 <= i < m - 1 ensures Probe(hash, i, Pow2(k)) != b { ProbesDistinct(hash, k, i, m - 1); }
      }
      assert Probed(hash, m, Pow2(k)) == Probed(hash, m - 1, Pow2(k)) + {b};
    }
  }

  /** Every bucket is probed within as many probes as there are buckets. */
  lemma ProbesCover(hash: nat, k: nat, b: nat) returns (i: nat)
    requires b < Pow2(k)
    ensures i < Pow2(k) && Probe(hash, i, Pow2(k)) == b
  {
    var n := Pow2(k);
    ProbedSize(hash, k, n);
    SubsetSize(Probed(hash, n, n), Below(n));
    assert b in Probed(hash, n, n);
    i :| 0 <= i < n && Probe(hash, i, n) == b;
  }
}
