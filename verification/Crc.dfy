/** The cyclic redundancy check of mailbox messages (src/crc/crc.c), with the
    CRC-32 parameters of src/crc/crc.h, those of section 8.1.1.6.2 of ITU-T V.42.

    A machine word is the sequence of its bits, the top bit first. */
module Crc {
  import opened Bits
  import Ring

  type Word = seq<bool>

  type Byte = Ring.Byte

  const WIDTH: nat := 32

  function Zeros(n: nat): (z: Word)
    ensures |z| == n && forall i :: 0 <= i < n ==> !z[i]
  {
    seq(n, _ => false)
  }

  function Xor(a: Word, b: Word): (c: Word)
    requires |a| == |b|
    ensures |c| == |a| && forall i :: 0 <= i < |c| ==> c[i] == (a[i] != b[i])
  {
    seq(|a|, i requires 0 <= i < |a| => a[i] != b[i])
  }

  /** The low `n` bits of a number. */
  function ToBits(x: nat, n: nat): (w: Word)
    ensures |w| == n
  {
    if n == 0 then [] else ToBits(x / 2, n - 1) + [x % 2 == 1]
  }

  function FromBits(w: Word): nat {
    if w == [] then 0 else 2 * FromBits(w[..|w| - 1]) + if w[|w| - 1] then 1 else 0
  }

  lemma {:induction false} FromToBits(x: nat, n: nat)
    requires x < Pow2(n)
    ensures FromBits(ToBits(x, n)) == x
  {
    if n > 0 {
      FromToBits(x / 2, n - 1);
      assert ToBits(x, n)[..n - 1] == ToBits(x / 2, n - 1);
    }
  }

  lemma {:induction false} ToFromBits(w: Word)
    ensures FromBits(w) < Pow2(|w|) && ToBits(FromBits(w), |w|) == w
  {
    if w != [] {
      var v := w[..|w| - 1];
      ToFromBits(v);
      HalfOf(FromBits(v), w[|w| - 1], FromBits(w));
      assert w == v + [w[|w| - 1]];
    }
  }

  lemma HalfOf(h: nat, b: bool, x: nat)
    requires x == 2 * h + if b then 1 else 0
    ensures x / 2 == h && (x % 2 == 1) == b
  {
  }

  const POLYNOMIAL: Word := ToBits(0x04C1_1DB7, WIDTH)
  const INITIAL_REMAINDER: Word := ToBits(0xFFFF_FFFF, WIDTH)
  const FINAL_XOR_VALUE: Word := ToBits(0xFFFF_FFFF, WIDTH)

  // ----- reflection -----

  function Reverse(w: Word): (r: Word)
    ensures |r| == |w| && forall i :: 0 <= i < |w| ==> r[i] == w[|w| - 1 - i]
  {
    seq(|w|, i requires 0 <= i < |w| => w[|w| - 1 - i])
  }

  /** `data >> 1` */
  function ShiftRight(w: Word): Word
    requires w != []
  {
    [false] + w[..|w| - 1]
  }

  /** `reflect`: bits are taken from the bottom and set from the top. */
  method Reflect(data: Word) returns (reflection: Word)
    ensures reflection == Reverse(data)
  {
    var nBits := |data|;
    reflection := Zeros(nBits);
    var rest := data;
    var bit := 0;
    while bit < nBits
      invariant 0 <= bit <= nBits && |rest| == nBits && |reflection| == nBits
      invariant forall i :: bit <= i < nBits ==> rest[i] == data[i - bit]
      invariant forall i :: 0 <= i < nBits ==> reflection[i] == (i < bit && data[nBits - 1 - i])
    {
      if rest[nBits - 1] {
        reflection := reflection[bit := true];
      }
      rest := ShiftRight(rest);
      bit := bit + 1;
    }
  }

  // ----- division, bit by bit -----

  function ShiftLeft(r: Word): (s: Word)
    requires r != []
    ensures |s| == |r|
  {
    r[1..] + [false]
  }

  function ShiftBit(r: Word): (s: Word)
    requires |r| == WIDTH
    ensures |s| == WIDTH
  {
    if r[0] then Xor(ShiftLeft(r), POLYNOMIAL) else ShiftLeft(r)
  }

  function ShiftBits(r: Word, n: nat): (s: Word)
    requires |r| == WIDTH
    ensures |s| == WIDTH
    decreases n, r
  {
    if n == 0 then r else ShiftBit(ShiftBits(r, n - 1))
  }

  /** A byte on top of a remainder. */
  function Join(r: Word, q: Word): (s: Word)
    requires |r| == WIDTH && |q| == 8
    ensures |s| == WIDTH
  {
    Xor(r, q + Zeros(24))
  }

  function Divide(r: Word): (s: Word)
    requires |r| == WIDTH
    ensures |s| == WIDTH
  {
    ShiftBits(r, 8)
  }

  /** `REFLECT_DATA` of a byte. */
  function ReflectedByte(b: Byte): (q: Word)
    ensures |q| == 8
  {
    Reverse(ToBits(b, 8))
  }

  /** The next byte joins the remainder and is divided. */
  function TakeByte(r: Word, b: Byte): (s: Word)
    requires |r| == WIDTH
    ensures |s| == WIDTH
  {
    Divide(Join(r, ReflectedByte(b)))
  }

  /** The remainder behind the first `n` bytes, from the remainder before them. */
  function Remainder(r: Word, message: seq<Byte>, n: nat): (s: Word)
    requires |r| == WIDTH && n <= |message|
    ensures |s| == WIDTH
    decreases n
  {
    if n == 0 then r else TakeByte(Remainder(r, message, n - 1), message[n - 1])
  }

  function CrcOf(message: seq<Byte>): Word {
    Xor(Reverse(Remainder(INITIAL_REMAINDER, message, |message|)), FINAL_XOR_VALUE)
  }

  /** The inner loop of all three routines. */
  method DivideByte(r: Word) returns (remainder: Word)
    requires |r| == WIDTH
    ensures remainder == Divide(r)
  {
    remainder := r;
    var bit := 8;
    while bit > 0
      invariant 0 <= bit <= 8 && |remainder| == WIDTH && remainder == ShiftBits(r, 8 - bit)
    {
      if remainder[0] {
        remainder := Xor(ShiftLeft(remainder), POLYNOMIAL);
      } else {
        remainder := ShiftLeft(remainder);
      }
      bit := bit - 1;
    }
  }

  /** `crcSlow` */
  method CrcSlow(message: seq<Byte>) returns (crc: Word)
    ensures crc == CrcOf(message)
  {
    var remainder := INITIAL_REMAINDER;
    var i := 0;
    while i < |message|
      invariant 0 <= i <= |message| && |remainder| == WIDTH
      invariant remainder == Remainder(INITIAL_REMAINDER, message, i)
    {
      var data := Reflect(ToBits(message[i], 8));
      remainder := DivideByte(Join(remainder, data));
      i := i + 1;
    }
    var reflected := Reflect(remainder);
    crc := Xor(reflected, FINAL_XOR_VALUE);
  }

  // ----- dividing is linear and one-to-one -----

  lemma ShiftBitLinear(x: Word, y: Word)
    requires |x| == |y| == WIDTH
    ensures ShiftBit(Xor(x, y)) == Xor(ShiftBit(x), ShiftBit(y))
  {
  }

  /** Dividing is linear. */
  lemma {:induction false} ShiftBitsLinear(x: Word, y: Word, n: nat)
    requires |x| == |y| == WIDTH
    ensures ShiftBits(Xor(x, y), n) == Xor(ShiftBits(x, n), ShiftBits(y, n))
    decreases n
  {
    if n > 0 {
      ShiftBitsLinear(x, y, n - 1);
      ShiftBitLinear(ShiftBits(x, n - 1), ShiftBits(y, n - 1));
    }
  }

  lemma LowBit(x: nat, n: nat)
    requires n > 0
    ensures ToBits(x, n)[n - 1] == (x % 2 == 1)
  {
  }

  /** The polynomial has its low bit set, so the bit shifted out can be told. */
  lemma ShiftedOut(r: Word, s: Word, poly: Word)
    requires |r| == |s| == |poly| == WIDTH && poly[WIDTH - 1]
    requires s == if r[0] then Xor(ShiftLeft(r), poly) else ShiftLeft(r)
    ensures r[0] == s[WIDTH - 1]
    ensures r == [s[WIDTH - 1]] + (if s[WIDTH - 1] then Xor(s, poly) else s)[..WIDTH - 1]
  {
    var q := if s[WIDTH - 1] then Xor(s, poly) else s;
    assert q == ShiftLeft(r);
  }

  lemma ShiftBitInjective(x: Word, y: Word)
    requires |x| == |y| == WIDTH && ShiftBit(x) == ShiftBit(y)
    ensures x == y
  {
    LowBit(0x04C1_1DB7, WIDTH);
    ShiftedOut(x, ShiftBit(x), POLYNOMIAL);
    ShiftedOut(y, ShiftBit(y), POLYNOMIAL);
  }

  /** No two remainders divide to the same one. */
  lemma {:induction false} ShiftBitsInjective(x: Word, y: Word, n: nat)
    requires |x| == |y| == WIDTH && ShiftBits(x, n) == ShiftBits(y, n)
    ensures x == y
    decreases n
  {
    if n > 0 {
      ShiftBitInjective(ShiftBits(x, n - 1), ShiftBits(y, n - 1));
      ShiftBitsInjective(x, y, n - 1);
    }
  }

  /** Steps that meet only zero bits on top only move the word. */
  lemma {:induction false} ShiftZeros(x: Word, n: nat)
    requires |x| == WIDTH && n <= WIDTH && forall i :: 0 <= i < n ==> !x[i]
    ensures ShiftBits(x, n) == x[n..] + Zeros(n)
    decreases n
  {
    if n > 0 { ShiftZeros(x, n - 1); }
  }

  // ----- a byte at a time -----

  /** One table step is eight bit steps. */
  lemma TableStep(r: Word, q: Word)
    requires |r| == WIDTH && |q| == 8
    ensures Divide(Join(r, q)) == Xor(Divide(Xor(q, r[..8]) + Zeros(24)), r[8..] + Zeros(8))
  {
    var top, low := Xor(q, r[..8]) + Zeros(24), Zeros(8) + r[8..];
    assert Join(r, q) == Xor(top, low);
    ShiftBitsLinear(top, low, 8);
    ShiftZeros(low, 8);
    assert low[8..] == r[8..];
  }

  predicate EntryOk(crcTable: seq<Word>, d: nat) {
    |crcTable| == 256 && d < 256 && crcTable[d] == Divide(ToBits(d, 8) + Zeros(24))
  }

  /** What `crcInit` puts into the table. */
  predicate TableOk(crcTable: seq<Word>) {
    forall d :: 0 <= d < 256 ==> EntryOk(crcTable, d)
  }

  /** `crcInit` */
  method CrcInit(crcTable: array<Word>)
    requires crcTable.Length == 256
    modifies crcTable
    ensures TableOk(crcTable[..])
  {
    var dividend := 0;
    while dividend < 256
      invariant 0 <= dividend <= 256
      invariant forall d :: 0 <= d < dividend ==> EntryOk(crcTable[..], d)
    {
      ghost var t := crcTable[..];
      var remainder := DivideByte(ToBits(dividend, 8) + Zeros(24));
      crcTable[dividend] := remainder;
      forall d | 0 <= d < dividend ensures EntryOk(crcTable[..], d) {
        assert EntryOk(t, d);
      }
      dividend := dividend + 1;
    }
  }

  /** The table's entry for a byte of bits. */
  lemma EntryAt(crcTable: seq<Word>, data: Word)
    requires TableOk(crcTable) && |data| == 8
    ensures FromBits(data) < |crcTable| == 256 && crcTable[FromBits(data)] == Divide(data + Zeros(24))
  {
    ToFromBits(data);
    assert Pow2(8) == 256;
    assert EntryOk(crcTable, 0) && EntryOk(crcTable, FromBits(data));
  }

  /** `crcFast` gives the CRC of `crcSlow`, once `crcInit` has run. */
  method CrcFast(crcTable: array<Word>, message: seq<Byte>) returns (crc: Word)
    requires TableOk(crcTable[..])
    ensures crc == CrcOf(message)
  {
    var remainder := INITIAL_REMAINDER;
    var i := 0;
    while i < |message|
      invariant 0 <= i <= |message| && |remainder| == WIDTH
      invariant remainder == Remainder(INITIAL_REMAINDER, message, i)
    {
      var reflected := Reflect(ToBits(message[i], 8));
      var data := Xor(reflected, remainder[..8]);
      EntryAt(crcTable[..], data);
      TableStep(remainder, reflected);
      remainder := Xor(crcTable[FromBits(data)], remainder[8..] + Zeros(8));
      i := i + 1;
    }
    var reflected := Reflect(remainder);
    crc := Xor(reflected, FINAL_XOR_VALUE);
  }

  // ----- what the check detects -----

  lemma JoinInjective(x: Word, y: Word, q: Word)
    requires |x| == |y| == WIDTH && |q| == 8 && Join(x, q) == Join(y, q)
    ensures x == y
  {
    var w := q + Zeros(24);
    forall i | 0 <= i < WIDTH ensures x[i] == y[i] { assert Join(x, q)[i] == Join(y, q)[i]; }
  }

  /** Remainders that are equal, or different, stay so over equal bytes. */
  lemma {:induction false} SameBytes(r: Word, m: seq<Byte>, m': seq<Byte>, from: nat, n: nat)
    requires |r| == WIDTH && from <= n <= |m| == |m'| && forall j :: from <= j < n ==> m[j] == m'[j]
    ensures Remainder(r, m, from) == Remainder(r, m', from) <==> Remainder(r, m, n) == Remainder(r, m', n)
    decreases n
  {
    if from < n {
      SameBytes(r, m, m', from, n - 1);
      var x, y, q := Remainder(r, m, n - 1), Remainder(r, m', n - 1), ReflectedByte(m[n - 1]);
      if TakeByte(x, m[n - 1]) == TakeByte(y, m[n - 1]) {
        ShiftBitsInjective(Join(x, q), Join(y, q), 8);
        JoinInjective(x, y, q);
      }
    }
  }

  /** Four bytes as the word they make, joined to a remainder. */
  function JoinFour(r: Word, a: Word, b: Word, c: Word, d: Word): (s: Word)
    requires |r| == WIDTH && |a| == |b| == |c| == |d| == 8
    ensures |s| == WIDTH
  {
    Xor(r, a + b + c + d)
  }

  /** A word under the top byte joins before a division, or one byte up after it. */
  lemma LowBytesJoin(x: Word, low: Word)
    requires |x| == WIDTH && |low| == 24
    ensures Divide(Xor(x, Zeros(8) + low)) == Xor(Divide(x), low + Zeros(8))
  {
    ShiftBitsLinear(x, Zeros(8) + low, 8);
    ShiftZeros(Zeros(8) + low, 8);
    assert (Zeros(8) + low)[8..] == low;
  }

  /** Taking four bytes one by one is dividing the word they make four times. */
  lemma FourAtOnce(r: Word, a: Word, b: Word, c: Word, d: Word)
    requires |r| == WIDTH && |a| == |b| == |c| == |d| == 8
    ensures Divide(Join(Divide(Join(Divide(Join(Divide(Join(r, a)), b)), c)), d))
         == Divide(Divide(Divide(Divide(JoinFour(r, a, b, c, d)))))
  {
    var x := Join(r, a);
    assert JoinFour(r, a, b, c, d) == Xor(x, Zeros(8) + (b + c + d));
    LowBytesJoin(x, b + c + d);
    var y := Join(Divide(x), b);
    assert Xor(Divide(x), (b + c + d) + Zeros(8)) == Xor(y, Zeros(8) + (c + d + Zeros(8)));
    LowBytesJoin(y, c + d + Zeros(8));
    var z := Join(Divide(y), c);
    assert Xor(Divide(y), (c + d + Zeros(8)) + Zeros(8)) == Xor(z, Zeros(8) + (d + Zeros(16)));
    LowBytesJoin(z, d + Zeros(16));
    assert Xor(Divide(z), (d + Zeros(16)) + Zeros(8)) == Join(Divide(z), d);
  }

  lemma JoinFourInjective(r: Word, a: Word, b: Word, c: Word, d: Word, a': Word, b': Word, c': Word, d': Word)
    requires |r| == WIDTH && |a| == |b| == |c| == |d| == 8 && |a'| == |b'| == |c'| == |d'| == 8
    requires JoinFour(r, a, b, c, d) == JoinFour(r, a', b', c', d')
    ensures a == a' && b == b' && c == c' && d == d'
  {
    var w, w' := a + b + c + d, a' + b' + c' + d';
    forall i | 0 <= i < WIDTH ensures w[i] == w'[i] {
      assert JoinFour(r, a, b, c, d)[i] == JoinFour(r, a', b', c', d')[i];
    }
    assert a == w[..8] == w'[..8] == a' && b == w[8..16] == w'[8..16] == b';
    assert c == w[16..24] == w'[16..24] == c' && d == w[24..] == w'[24..] == d';
  }

  lemma DivideFourInjective(x: Word, y: Word)
    requires |x| == |y| == WIDTH && Divide(Divide(Divide(Divide(x)))) == Divide(Divide(Divide(Divide(y))))
    ensures x == y
  {
    ShiftBitsInjective(Divide(Divide(Divide(x))), Divide(Divide(Divide(y))), 8);
    ShiftBitsInjective(Divide(Divide(x)), Divide(Divide(y)), 8);
    ShiftBitsInjective(Divide(x), Divide(y), 8);
    ShiftBitsInjective(x, y, 8);
  }

  /** Different bytes have different reflections. */
  lemma ReflectedByteInjective(b: Byte, b': Byte)
    requires ReflectedByte(b) == ReflectedByte(b')
    ensures b == b'
  {
    var w, w' := ToBits(b, 8), ToBits(b', 8);
    forall i | 0 <= i < 8 ensures w[i] == w'[i] { assert Reverse(w)[7 - i] == Reverse(w')[7 - i]; }
    assert w == w' && Pow2(8) == 256;
    FromToBits(b, 8);
    FromToBits(b', 8);
  }

  function TakeFour(r: Word, a: Byte, b: Byte, c: Byte, d: Byte): (s: Word)
    requires |r| == WIDTH
    ensures |s| == WIDTH
  {
    TakeByte(TakeByte(TakeByte(TakeByte(r, a), b), c), d)
  }

  lemma FourTaken(r: Word, m: seq<Byte>, i: nat)
    requires |r| == WIDTH && i + 4 <= |m|
    ensures Remainder(r, m, i + 4) == TakeFour(Remainder(r, m, i), m[i], m[i + 1], m[i + 2], m[i + 3])
  {
    assert Remainder(r, m, i + 2) == TakeByte(Remainder(r, m, i + 1), m[i + 1]);
    assert Remainder(r, m, i + 3) == TakeByte(Remainder(r, m, i + 2), m[i + 2]);
  }

  lemma TakeFourInjective(r: Word, a: Byte, b: Byte, c: Byte, d: Byte, a': Byte, b': Byte, c': Byte, d': Byte)
    requires |r| == WIDTH && TakeFour(r, a, b, c, d) == TakeFour(r, a', b', c', d')
    ensures a == a' && b == b' && c == c' && d == d'
  {
    var p, q, s, t := ReflectedByte(a), ReflectedByte(b), ReflectedByte(c), ReflectedByte(d);
    var p', q', s', t' := ReflectedByte(a'), ReflectedByte(b'), ReflectedByte(c'), ReflectedByte(d');
    FourAtOnce(r, p, q, s, t);
    FourAtOnce(r, p', q', s', t');
    DivideFourInjective(JoinFour(r, p, q, s, t), JoinFour(r, p', q', s', t'));
    JoinFourInjective(r, p, q, s, t, p', q', s', t');
    ReflectedByteInjective(a, a');
    ReflectedByteInjective(b, b');
    ReflectedByteInjective(c, c');
    ReflectedByteInjective(d, d');
  }

  /** Equal remainders part over four bytes, unless the bytes are the same. */
  lemma FourBytesPart(r: Word, m: seq<Byte>, m': seq<Byte>, i: nat)
    requires |r| == WIDTH && |m| == |m'| && i + 4 <= |m| && Remainder(r, m, i) == Remainder(r, m', i)
    requires Remainder(r, m, i + 4) == Remainder(r, m', i + 4)
    ensures m[i] == m'[i] && m[i + 1] == m'[i + 1] && m[i + 2] == m'[i + 2] && m[i + 3] == m'[i + 3]
  {
    FourTaken(r, m, i);
    FourTaken(r, m', i);
    TakeFourInjective(Remainder(r, m, i), m[i], m[i + 1], m[i + 2], m[i + 3], m'[i], m'[i + 1], m'[i + 2], m'[i + 3]);
  }

  lemma CrcInjective(x: Word, y: Word)
    requires |x| == |y| == WIDTH && Xor(Reverse(x), FINAL_XOR_VALUE) == Xor(Reverse(y), FINAL_XOR_VALUE)
    ensures x == y
  {
    forall i | 0 <= i < WIDTH ensures x[i] == y[i] {
      assert Xor(Reverse(x), FINAL_XOR_VALUE)[31 - i] == Xor(Reverse(y), FINAL_XOR_VALUE)[31 - i];
    }
  }

  lemma {:induction false} SamePrefix(r: Word, m: seq<Byte>, p: seq<Byte>, n: nat)
    requires |r| == WIDTH && n <= |m| && m <= p
    ensures Remainder(r, m, n) == Remainder(r, p, n)
    decreases n
  {
    if n > 0 { SamePrefix(r, m, p, n - 1); }
  }

  /** Messages that agree but for four bytes from `i`. */
  predicate AgreeBut(m: seq<Byte>, m': seq<Byte>, i: nat) {
    |m| == |m'| && forall j :: 0 <= j < |m| && !(i <= j < i + 4) ==> m[j] == m'[j]
  }

  lemma AgreeAll(m: seq<Byte>, m': seq<Byte>, i: nat)
    requires AgreeBut(m, m', i) && i + 4 <= |m|
    requires m[i] == m'[i] && m[i + 1] == m'[i + 1] && m[i + 2] == m'[i + 2] && m[i + 3] == m'[i + 3]
    ensures m == m'
  {
    forall k | 0 <= k < |m| ensures m[k] == m'[k] {
      assert k == i || k == i + 1 || k == i + 2 || k == i + 3 || !(i <= k < i + 4);
    }
  }

  lemma PadAgree(m: seq<Byte>, m': seq<Byte>, i: nat, p: seq<Byte>, p': seq<Byte>)
    requires AgreeBut(m, m', i) && p == m + [0, 0, 0, 0] && p' == m' + [0, 0, 0, 0]
    ensures AgreeBut(p, p', i) && (p == p' ==> m == m') && m <= p && m' <= p' && |p| == |m| + 4
    ensures forall j :: |m| <= j < |p| ==> p[j] == p'[j]
  {
    assert m == p[..|m|] && m' == p'[..|m|];
  }

  lemma PaddedSame(r: Word, p: seq<Byte>, p': seq<Byte>, i: nat)
    requires |r| == WIDTH && AgreeBut(p, p', i) && i + 4 <= |p| && Remainder(r, p, |p|) == Remainder(r, p', |p|)
    ensures p == p'
  {
    SameBytes(r, p, p', i + 4, |p|);
    SameBytes(r, p, p', 0, i);
    FourBytesPart(r, p, p', i);
    AgreeAll(p, p', i);
  }

  lemma SameRemainder(r: Word, m: seq<Byte>, m': seq<Byte>, i: nat, p: seq<Byte>, p': seq<Byte>)
    requires |r| == WIDTH && AgreeBut(m, m', i) && i <= |m| && Remainder(r, m, |m|) == Remainder(r, m', |m|)
    requires p == m + [0, 0, 0, 0] && p' == m' + [0, 0, 0, 0]
    ensures m == m'
  {
    PadAgree(m, m', i, p, p');
    SamePrefix(r, m, p, |m|);
    SamePrefix(r, m', p', |m|);
    SameBytes(r, p, p', |m|, |p|);
    PaddedSame(r, p, p', i);
  }

  /** Two messages of one length that differ, but only within four consecutive
      bytes, have different CRCs. */
  lemma BurstDetected(m: seq<Byte>, m': seq<Byte>, i: nat)
    requires AgreeBut(m, m', i) && m != m'
    ensures CrcOf(m) != CrcOf(m')
  {
    assert i > |m| ==> m == m';
    if CrcOf(m) == CrcOf(m') {
      CrcInjective(Remainder(INITIAL_REMAINDER, m, |m|), Remainder(INITIAL_REMAINDER, m', |m|));
      SameRemainder(INITIAL_REMAINDER, m, m', i, m + [0, 0, 0, 0], m' + [0, 0, 0, 0]);
    }
  }
}
