/** The cyclic redundancy check of src/crc/crc.c as the remainder of a division of polynomials over
    two elements, with the parameters of CRC-32 written out. A polynomial is the sequence of its
    coefficients, the highest first. */
module CrcDivision {
  import opened Bits
  import opened Crc

  function Ones(n: nat): (w: Word)
    ensures |w| == n && forall i :: 0 <= i < n ==> w[i]
  {
    seq(n, _ => true)
  }

  /** The bit worth `2^k` of a number. */
  function BitAt(x: nat, k: nat): bool {
    if k == 0 then x % 2 == 1 else BitAt(x / 2, k - 1)
  }

  /** x^32, and a power for each bit of 0x04C11DB7. */
  function Generator(): (g: Word)
    ensures |g| == 33 && g[0] && forall i :: 0 < i < 33 ==> g[i] == BitAt(0x04C1_1DB7, 32 - i)
  {
    [true] + seq(32, i requires 0 <= i < 32 => BitAt(0x04C1_1DB7, 31 - i))
  }

  /** `q` times the generator. */
  function Times(q: Word): (r: Word)
    ensures |r| == |q| + 32
  {
    if q == [] then Zeros(32)
    else
      var n := |q| - 1;
      var p := Times(q[..n]) + [false];
      if q[n] then Xor(p, Zeros(n) + Generator()) else p
  }

  /** The bits of the bytes in order, the low bit of each byte first. */
  function MessageBits(message: seq<Byte>): (w: Word)
    ensures |w| == 8 * |message|
    ensures forall i :: 0 <= i < |w| ==> w[i] == BitAt(message[i / 8], i % 8)
  {
    seq(8 * |message|, i requires 0 <= i < 8 * |message| => BitAt(message[i / 8], i % 8))
  }

  /** The message followed by 32 zeros, the first 32 bits of all inverted. */
  function Dividend(message: seq<Byte>): (w: Word)
    ensures |w| == 8 * |message| + 32
  {
    Xor(MessageBits(message) + Zeros(32), Ones(32) + Zeros(8 * |message|))
  }

  // ----- the parameters as bits -----

  lemma {:induction false} BitOfNumber(x: nat, n: nat, i: nat)
    requires i < n
    ensures ToBits(x, n)[i] == BitAt(x, n - 1 - i)
  {
    if i < n - 1 { BitOfNumber(x / 2, n - 1, i); }
  }

  lemma Coefficients(x: nat, n: nat, g: Word)
    requires |g| == n + 1 && g[0] && forall i :: 0 < i <= n ==> g[i] == BitAt(x, n - i)
    ensures g == [true] + ToBits(x, n)
  {
    forall i | 0 <= i < n ensures ToBits(x, n)[i] == g[i + 1] {
      BitOfNumber(x, n, i);
    }
  }

  lemma GeneratorBits()
    ensures Generator() == [true] + POLYNOMIAL
  {
    Coefficients(0x04C1_1DB7, WIDTH, Generator());
  }

  lemma {:induction false} AllOnes(x: nat, n: nat)
    requires x + 1 == Pow2(n)
    ensures ToBits(x, n) == Ones(n)
  {
    if n > 0 { AllOnes(x / 2, n - 1); }
  }

  lemma OnesOfWord()
    ensures INITIAL_REMAINDER == Ones(32) == FINAL_XOR_VALUE
  {
    WordPower();
    AllOnes(0xFFFF_FFFF, WIDTH);
  }

  lemma WordPower()
    ensures Pow2(WIDTH) == 0x1_0000_0000
  {
    Pow2Add(8, 8);
    Pow2Add(16, 16);
  }

  // ----- a bit at a time -----

  function NextRemainder(r: Word, b: bool): (s: Word)
    requires |r| == WIDTH
    ensures |s| == WIDTH
  {
    ShiftBit(Xor(r, [b] + Zeros(31)))
  }

  function Serial(r: Word, bits: Word): (s: Word)
    requires |r| == WIDTH
    ensures |s| == WIDTH
  {
    if bits == [] then r else NextRemainder(Serial(r, bits[..|bits| - 1]), bits[|bits| - 1])
  }

  lemma {:induction false} SerialAppend(r: Word, a: Word, b: Word)
    requires |r| == WIDTH
    ensures Serial(r, a + b) == Serial(Serial(r, a), b)
    decreases |b|
  {
    if b == [] {
      assert a + b == a;
    } else {
      SerialAppend(r, a, b[..|b| - 1]);
      assert (a + b)[..|a + b| - 1] == a + b[..|b| - 1];
    }
  }

  /** Joining up to a word of bits at once and shifting is taking them one by one. */
  lemma {:induction false} SerialByte(r: Word, q: Word)
    requires |r| == WIDTH && |q| <= WIDTH
    ensures ShiftBits(Xor(r, q + Zeros(WIDTH - |q|)), |q|) == Serial(r, q)
    decreases |q|
  {
    if q == [] {
      assert Xor(r, q + Zeros(WIDTH)) == r;
    } else {
      var n := |q| - 1;
      var p, b := q[..n], q[n];
      var x, y := Xor(r, p + Zeros(WIDTH - n)), Zeros(n) + [b] + Zeros(WIDTH - 1 - n);
      SerialByte(r, p);
      assert Xor(r, q + Zeros(WIDTH - |q|)) == Xor(x, y);
      ShiftBitsLinear(x, y, n);
      ShiftZeros(y, n);
      assert y[n..] + Zeros(n) == [b] + Zeros(31);
    }
  }

  lemma BitsOfByte(message: seq<Byte>, n: nat)
    requires 0 < n <= |message|
    ensures MessageBits(message)[8 * n - 8..8 * n] == ReflectedByte(message[n - 1])
  {
    var w, q := MessageBits(message)[8 * n - 8..8 * n], ReflectedByte(message[n - 1]);
    forall i | 0 <= i < 8 ensures w[i] == q[i] {
      BitOfNumber(message[n - 1], 8, 7 - i);
      assert (8 * n - 8 + i) / 8 == n - 1 && (8 * n - 8 + i) % 8 == i;
    }
  }

  lemma ByteTaken(s: Word, b: Byte)
    requires |s| == WIDTH
    ensures TakeByte(s, b) == Serial(s, ReflectedByte(b))
  {
    SerialByte(s, ReflectedByte(b));
  }

  lemma SerialNext(r: Word, bits: Word, n: nat, q: Word)
    requires |r| == WIDTH && 8 <= n <= |bits| && bits[n - 8..n] == q
    ensures Serial(r, bits[..n]) == Serial(Serial(r, bits[..n - 8]), q)
  {
    assert bits[..n] == bits[..n - 8] + q;
    SerialAppend(r, bits[..n - 8], q);
  }

  /** The bits of byte `i`, as the code reflects them, stand in their place. */
  predicate ByteStands(bits: Word, message: seq<Byte>, i: nat) {
    i < |message| && 8 * i + 8 <= |bits| && bits[8 * i..8 * i + 8] == ReflectedByte(message[i])
  }

  lemma {:induction false} SerialMessage(r: Word, message: seq<Byte>, bits: Word, n: nat)
    requires |r| == WIDTH && n <= |message| && |bits| == 8 * |message|
    requires forall i :: 0 <= i < |message| ==> ByteStands(bits, message, i)
    ensures Remainder(r, message, n) == Serial(r, bits[..8 * n])
    decreases n
  {
    if n > 0 {
      SerialMessage(r, message, bits, n - 1);
      assert ByteStands(bits, message, n - 1);
      SerialNext(r, bits, 8 * n, ReflectedByte(message[n - 1]));
      ByteTaken(Remainder(r, message, n - 1), message[n - 1]);
    }
  }

  // ----- division -----

  /** One bit more of the dividend, and of the quotient. */
  lemma NextQuotient(r: Word, b: bool, t: bool, k: nat)
    requires |r| == WIDTH && t == (r[0] != b)
    ensures Xor(Zeros(k) + r + [false], Zeros(k) + [b] + Zeros(32)) ==
      Xor(if t then Zeros(k) + Generator() else Zeros(k + 33), Zeros(k + 1) + NextRemainder(r, b))
  {
    GeneratorBits();
    var x := Xor(r, [b] + Zeros(31));
    var left, right := Xor(Zeros(k) + r + [false], Zeros(k) + [b] + Zeros(32)),
                       Xor(if t then Zeros(k) + Generator() else Zeros(k + 33), Zeros(k + 1) + NextRemainder(r, b));
    assert x[0] == t;
    forall i | 0 <= i < k + 33 ensures left[i] == right[i] {
      if i > k {
        assert NextRemainder(r, b)[i - k - 1] == ((x + [false])[i - k] != (t && POLYNOMIAL[i - k - 1]));
        assert left[i] == (x + [false])[i - k];
      }
    }
  }

  /** The dividend of the first bits. */
  function Started(bits: Word): (w: Word)
    ensures |w| == |bits| + 32
  {
    Xor(bits + Zeros(32), Ones(32) + Zeros(|bits|))
  }

  lemma StartedNext(bits: Word, k: nat)
    requires |bits| == k + 1
    ensures Started(bits) == Xor(Started(bits[..k]) + [false], Zeros(k) + [bits[k]] + Zeros(32))
  {
    var a, b := Started(bits), Xor(Started(bits[..k]) + [false], Zeros(k) + [bits[k]] + Zeros(32));
    forall i | 0 <= i < k + 33 ensures a[i] == b[i] {
    }
  }

  lemma TimesNext(p: Word, t: bool)
    ensures Times(p + [t]) == Xor(Times(p) + [false], if t then Zeros(|p|) + Generator() else Zeros(|p| + 33))
  {
    var q := p + [t];
    assert q[..|q| - 1] == p && q[|q| - 1] == t;
    NoChange(Times(p) + [false]);
  }

  lemma NoChange(w: Word)
    ensures Xor(w, Zeros(|w|)) == w
  {
  }

  lemma XorExtends(w: Word, a: Word, b: Word)
    requires |a| == |b| && w == Xor(a, b)
    ensures w + [false] == Xor(a + [false], b + [false])
  {
  }

  lemma {:induction false} Divides(bits: Word) returns (q: Word)
    ensures |q| == |bits|
    ensures Started(bits) == Xor(Times(q), Zeros(|bits|) + Serial(Ones(32), bits))
    decreases |bits|
  {
    if bits == [] {
      q := [];
    } else {
      var k := |bits| - 1;
      var p := Divides(bits[..k]);
      q := DividesNext(bits, k, p, Serial(Ones(32), bits[..k]));
    }
  }

  lemma DividesNext(bits: Word, k: nat, p: Word, r: Word) returns (q: Word)
    requires |bits| == k + 1 && |p| == k && |r| == WIDTH
    requires Started(bits[..k]) == Xor(Times(p), Zeros(k) + r)
    ensures |q| == k + 1 && Started(bits) == Xor(Times(q), Zeros(k + 1) + NextRemainder(r, bits[k]))
  {
    var t := r[0] != bits[k];
    q := p + [t];
    var step := if t then Zeros(k) + Generator() else Zeros(k + 33);
    StartedNext(bits, k);
    TimesNext(p, t);
    NextQuotient(r, bits[k], t, k);
    XorExtends(Started(bits[..k]), Times(p), Zeros(k) + r);
    XorMoves(Times(p) + [false], Zeros(k) + r + [false], Zeros(k) + [bits[k]] + Zeros(32), step,
             Zeros(k + 1) + NextRemainder(r, bits[k]));
  }

  lemma XorMoves(a: Word, b: Word, c: Word, d: Word, e: Word)
    requires |a| == |b| == |c| == |d| == |e| && Xor(b, c) == Xor(d, e)
    ensures Xor(Xor(a, b), c) == Xor(Xor(a, d), e)
  {
    forall i | 0 <= i < |a| ensures Xor(Xor(a, b), c)[i] == Xor(Xor(a, d), e)[i] {
      assert Xor(b, c)[i] == Xor(d, e)[i];
    }
  }

  function Complement(w: Word): (r: Word)
    ensures |r| == |w| && forall i :: 0 <= i < |w| ==> r[i] == !w[i]
  {
    seq(|w|, i requires 0 <= i < |w| => !w[i])
  }

  /** The CRC of a message, its bits inverted and in reverse order, is what the message leaves over
      when it is divided by the generator. */
  lemma CrcIsRemainder(message: seq<Byte>) returns (q: Word)
    ensures |q| == 8 * |message| && |CrcOf(message)| == 32
    ensures Dividend(message) == Xor(Times(q), Zeros(8 * |message|) + Reverse(Complement(CrcOf(message))))
  {
    OnesOfWord();
    var bits, r := MessageBits(message), Remainder(INITIAL_REMAINDER, message, |message|);
    q := Divides(bits);
    forall i | 0 <= i < |message| ensures ByteStands(bits, message, i) { BitsOfByte(message, i + 1); }
    SerialMessage(INITIAL_REMAINDER, message, bits, |message|);
    assert bits[..8 * |message|] == bits;
    assert Reverse(Complement(CrcOf(message))) == r;
  }

  lemma {:induction false} QuotientUnique(q: Word, q': Word)
    requires |q| == |q'| && Times(q)[..|q|] == Times(q')[..|q|]
    ensures q == q'
    decreases |q|
  {
    if q != [] {
      var n := |q| - 1;
      assert Times(q)[..n] == Times(q[..n])[..n] && Times(q')[..n] == Times(q'[..n])[..n];
      assert Times(q)[..n] == Times(q)[..|q|][..n] && Times(q')[..n] == Times(q')[..|q|][..n];
      QuotientUnique(q[..n], q'[..n]);
      assert Times(q)[n] == Times(q)[..|q|][n] && Times(q')[n] == Times(q')[..|q|][n];
      assert (Zeros(n) + Generator())[n];
    }
  }

  /** Quotient and remainder are the only ones, so the division determines the CRC. */
  lemma RemainderUnique(q: Word, r: Word, q': Word, r': Word)
    requires |q| == |q'| && |r| == |r'| == 32
    requires Xor(Times(q), Zeros(|q|) + r) == Xor(Times(q'), Zeros(|q|) + r')
    ensures q == q' && r == r'
  {
    var n := |q|;
    forall i | 0 <= i < n ensures Times(q)[..n][i] == Times(q')[..n][i] {
      assert Xor(Times(q), Zeros(n) + r)[i] == Xor(Times(q'), Zeros(n) + r')[i];
    }
    assert Times(q)[..n] == Times(q')[..n];
    QuotientUnique(q, q');
    forall i | 0 <= i < 32 ensures r[i] == r'[i] {
      assert Xor(Times(q), Zeros(n) + r)[n + i] == Xor(Times(q'), Zeros(n) + r')[n + i];
    }
  }
}
