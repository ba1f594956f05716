/** SHA-256 as FIPS 180-4 defines it. */
module Fips180 {
  import opened Wrappers

  type Word = x: int | 0 <= x < 0x1_0000_0000

  const TWO32: int := 0x1_0000_0000

  // ------------------------------------------------- words (section 3.2)

  function Power2(n: nat): (p: nat)
    ensures p > 0
  {
    if n == 0 then 1 else 2 * Power2(n - 1)
  }

  lemma WordRange()
    ensures Power2(32) == TWO32
  {
    assert Power2(8) == 0x100;
    assert Power2(16) == 0x1_0000;
    assert Power2(24) == 0x100_0000;
  }

  /** A Boolean operation applied to the `n` low bits of two numbers, bit by bit. */
  function Bitwise(op: (bool, bool) -> bool, x: nat, y: nat, n: nat): (r: nat)
    ensures r < Power2(n)
    decreases n, x, y
  {
    if n == 0 then 0
    else 2 * Bitwise(op, x / 2, y / 2, n - 1) + if op(x % 2 == 1, y % 2 == 1) then 1 else 0
  }

  function OnWords(op: (bool, bool) -> bool, x: Word, y: Word): Word {
    WordRange();
    Bitwise(op, x, y, 32)
  }

  function Xor(x: Word, y: Word): Word { OnWords((p, q) => p != q, x, y) }
  function And(x: Word, y: Word): Word { OnWords((p, q) => p && q, x, y) }
  function Or(x: Word, y: Word): Word { OnWords((p, q) => p || q, x, y) }
  function Not(x: Word): Word { TWO32 - 1 - x }

  /** Shifts by `n` places, zeros coming in. */
  function Shr(x: Word, n: nat): Word
    decreases n, x
  {
    if n == 0 then x else Shr(x / 2, n - 1)
  }

  function Shl(x: Word, n: nat): Word
    decreases n, x
  {
    if n == 0 then x else Shl(2 * x % TWO32, n - 1)
  }

  /** Addition modulo 2^32. */
  function Plus(a: Word, b: Word): Word { (a + b) % TWO32 }

  /** Rotation to the right. */
  function Rotr(x: Word, n: nat): Word requires 0 < n < 32 { Or(Shr(x, n), Shl(x, 32 - n)) }

  // ------------------------------------------------------- words as bits

  /** Bit `i` of a number, counting from the least significant one. */
  predicate Bit(x: nat, i: nat) {
    if i == 0 then x % 2 == 1 else Bit(x / 2, i - 1)
  }

  lemma {:induction false} BitwiseBit(op: (bool, bool) -> bool, x: nat, y: nat, n: nat, i: nat)
    requires i < n
    ensures Bit(Bitwise(op, x, y, n), i) == op(Bit(x, i), Bit(y, i))
    decreases n
  {
    if i > 0 {
      BitwiseBit(op, x / 2, y / 2, n - 1, i - 1);
    }
  }

  /** The Boolean operations work on each bit by itself. */
  lemma WordBits(x: Word, y: Word, i: nat)
    requires i < 32
    ensures Bit(Xor(x, y), i) <==> Bit(x, i) != Bit(y, i)
    ensures Bit(And(x, y), i) <==> Bit(x, i) && Bit(y, i)
    ensures Bit(Or(x, y), i) <==> Bit(x, i) || Bit(y, i)
    ensures Bit(Not(x), i) <==> !Bit(x, i)
  {
    hide Bit, Bitwise;
    BitwiseBit((p, q) => p != q, x, y, 32, i);
    BitwiseBit((p, q) => p && q, x, y, 32, i);
    BitwiseBit((p, q) => p || q, x, y, 32, i);
    WordRange();
    NotBit(x, 32, i);
  }

  lemma {:induction false} NotBit(x: nat, n: nat, i: nat)
    requires i < n && x < Power2(n)
    ensures Bit(Power2(n) - 1 - x, i) <==> !Bit(x, i)
    decreases n
  {
    if i > 0 {
      assert (Power2(n) - 1 - x) / 2 == Power2(n - 1) - 1 - x / 2;
      NotBit(x / 2, n - 1, i - 1);
    }
  }

  lemma {:induction false} HighBits(x: nat, n: nat, i: nat)
    requires x < Power2(n) && n <= i
    ensures !Bit(x, i)
    decreases i
  {
    if n > 0 {
      HighBits(x / 2, n - 1, i - 1);
    } else if i > 0 {
      HighBits(x / 2, 0, i - 1);
    }
  }

  lemma {:induction false} LowBits(x: nat, n: nat, i: nat)
    requires i < n
    ensures Bit(x + Power2(n), i) == Bit(x, i)
    decreases n
  {
    if i > 0 {
      assert (x + Power2(n)) / 2 == x / 2 + Power2(n - 1);
      LowBits(x / 2, n - 1, i - 1);
    }
  }

  /** A shift to the right takes bit `i` from `n` places above. */
  lemma {:induction false} ShrBit(x: Word, n: nat, i: nat)
    ensures Bit(Shr(x, n), i) == Bit(x, i + n)
    decreases n
  {
    if n > 0 {
      ShrBit(x / 2, n - 1, i);
    }
  }

  lemma DoubleBit(x: Word, i: nat)
    requires i < 32
    ensures Bit(2 * x % TWO32, i) <==> i > 0 && Bit(x, i - 1)
  {
    if i > 0 {
      HalfRange();
      var low := if x < 0x8000_0000 then x else x - 0x8000_0000;
      assert 2 * x % TWO32 == 2 * low;
      assert (2 * low) / 2 == low;
      LowBits(low, 31, i - 1);
    }
  }

  lemma HalfRange()
    ensures Power2(31) == 0x8000_0000
  {
    WordRange();
    assert Power2(32) == 2 * Power2(31);
  }

  /** A shift to the left takes it from `n` places below, zeros coming in. */
  lemma {:induction false} ShlBit(x: Word, n: nat, i: nat)
    requires i < 32
    ensures Bit(Shl(x, n), i) <==> i >= n && Bit(x, i - n)
    decreases n
  {
    if n > 0 {
      ShlBit(2 * x % TWO32, n - 1, i);
      if i >= n - 1 {
        DoubleBit(x, i - (n - 1));
      }
    }
  }

  /** A rotation to the right takes bit `i` from `n` places above, round the end. */
  lemma RotrBit(x: Word, n: nat, i: nat)
    requires 0 < n < 32 && i < 32
    ensures Bit(Rotr(x, n), i) <==> Bit(x, (i + n) % 32)
  {
    hide Bit, Or, Shr, Shl;
    WordBits(Shr(x, n), Shl(x, 32 - n), i);
    ShrBit(x, n, i);
    ShlBit(x, 32 - n, i);
    WordRange();
    if i + n >= 32 {
      HighBits(x, 32, i + n);
    }
  }

  lemma FourBytes(a0: Byte, a1: Byte, a2: Byte, a3: Byte, b0: Byte, b1: Byte, b2: Byte, b3: Byte)
    requires 16777216 * a0 as int + 65536 * a1 as int + 256 * a2 as int + a3 as int
          == 16777216 * b0 as int + 65536 * b1 as int + 256 * b2 as int + b3 as int
    ensures a0 == b0 && a1 == b1 && a2 == b2 && a3 == b3
  {
    var hi, lo := 256 * a0 as int + a1 as int, 256 * b0 as int + b1 as int;
    assert hi == lo;
  }

  lemma BigEndianSum(w: Word)
    ensures var c := BigEndian(w);
            w == c[0] as int * 16777216 + c[1] as int * 65536 + c[2] as int * 256 + c[3] as int
  {
    var h, l := w / 0x1_0000, w % 0x1_0000;
    assert w / 0x100_0000 == h / 0x100 && w / 0x1_0000 % 0x100 == h % 0x100;
    assert w / 0x100 % 0x100 == l / 0x100 && w % 0x100 == l % 0x100;
  }

  /** Words are read and written most significant byte first. */
  lemma BigEndianIs(w: Word, b: seq<Byte>)
    requires |b| == 4
    ensures BigEndian(w) == b <==>
              w == b[0] as int * 16777216 + b[1] as int * 65536 + b[2] as int * 256 + b[3] as int
    ensures BigEndian(w) == b <==> WordAt(b, 0) == w
  {
    BigEndianSum(w);
    var c := BigEndian(w);
    hide BigEndian;
    if w == b[0] as int * 16777216 + b[1] as int * 65536 + b[2] as int * 256 + b[3] as int {
      FourBytes(b[0], b[1], b[2], b[3], c[0], c[1], c[2], c[3]);
      assert b == [b[0], b[1], b[2], b[3]] && c == [c[0], c[1], c[2], c[3]];
    }
  }

  // --------------------------------------- functions and constants (4.1.2, 4.2.2, 5.3.3)

  function Ch(x: Word, y: Word, z: Word): Word { Xor(And(x, y), And(Not(x), z)) }
  function Maj(x: Word, y: Word, z: Word): Word { Xor(Xor(And(x, y), And(x, z)), And(y, z)) }
  function BigSigma0(x: Word): Word { Xor(Xor(Rotr(x, 2), Rotr(x, 13)), Rotr(x, 22)) }
  function BigSigma1(x: Word): Word { Xor(Xor(Rotr(x, 6), Rotr(x, 11)), Rotr(x, 25)) }
  function SmallSigma0(x: Word): Word { Xor(Xor(Rotr(x, 7), Rotr(x, 18)), Shr(x, 3)) }
  function SmallSigma1(x: Word): Word { Xor(Xor(Rotr(x, 17), Rotr(x, 19)), Shr(x, 10)) }

  const K0: seq<Word> := [
    0x428a2f98, 0x71374491, 0xb5c0fbcf, 0xe9b5dba5, 0x3956c25b, 0x59f111f1, 0x923f82a4, 0xab1c5ed5,
    0xd807aa98, 0x12835b01, 0x243185be, 0x550c7dc3, 0x72be5d74, 0x80deb1fe, 0x9bdc06a7, 0xc19bf174]
  const K1: seq<Word> := [
    0xe49b69c1, 0xefbe4786, 0x0fc19dc6, 0x240ca1cc, 0x2de92c6f, 0x4a7484aa, 0x5cb0a9dc, 0x76f988da,
    0x983e5152, 0xa831c66d, 0xb00327c8, 0xbf597fc7, 0xc6e00bf3, 0xd5a79147, 0x06ca6351, 0x14292967]
  const K2: seq<Word> := [
    0x27b70a85, 0x2e1b2138, 0x4d2c6dfc, 0x53380d13, 0x650a7354, 0x766a0abb, 0x81c2c92e, 0x92722c85,
    0xa2bfe8a1, 0xa81a664b, 0xc24b8b70, 0xc76c51a3, 0xd192e819, 0xd6990624, 0xf40e3585, 0x106aa070]
  const K3: seq<Word> := [
    0x19a4c116, 0x1e376c08, 0x2748774c, 0x34b0bcb5, 0x391c0cb3, 0x4ed8aa4a, 0x5b9cca4f, 0x682e6ff3,
    0x748f82ee, 0x78a5636f, 0x84c87814, 0x8cc70208, 0x90befffa, 0xa4506ceb, 0xbef9a3f7, 0xc67178f2]
  const K: seq<Word> := K0 + K1 + K2 + K3

  const INITIAL: seq<Word> := [
    0x6a09e667, 0xbb67ae85, 0x3c6ef372, 0xa54ff53a, 0x510e527f, 0x9b05688c, 0x1f83d9ab, 0x5be0cd19
  ]

  const PRIMES0: seq<nat> := [2, 3, 5, 7, 11, 13, 17, 19, 23, 29, 31, 37, 41, 43, 47, 53]
  const PRIMES1: seq<nat> := [59, 61, 67, 71, 73, 79, 83, 89, 97, 101, 103, 107, 109, 113, 127, 131]
  const PRIMES2: seq<nat> := [137, 139, 149, 151, 157, 163, 167, 173, 179, 181, 191, 193, 197, 199, 211, 223]
  const PRIMES3: seq<nat> := [227, 229, 233, 239, 241, 251, 257, 263, 269, 271, 277, 281, 283, 293, 307, 311]

  /** Is `k` the first 32 bits of the fractional part of the cube root of `p`, whose whole part is `whole`? */
  predicate CubeRootBits(p: nat, whole: nat, k: int) {
    var n := whole * TWO32 + k;
    n * n * n <= p * TWO32 * TWO32 * TWO32 < (n + 1) * (n + 1) * (n + 1)
  }

  predicate SquareRootBits(p: nat, whole: nat, h: int) {
    var n := whole * TWO32 + h;
    n * n <= p * TWO32 * TWO32 < (n + 1) * (n + 1)
  }

  /** The whole part of the cube root of a number below 343. */
  function CubeRoot(p: nat): nat {
    if p < 8 then 1 else if p < 27 then 2 else if p < 64 then 3 else if p < 125 then 4 else if p < 216 then 5 else 6
  }

  function SquareRoot(p: nat): nat {
    if p < 4 then 1 else if p < 9 then 2 else if p < 16 then 3 else 4
  }

  /** Do the constants from `lo` up to `hi` come from the primes in the same places? */
  predicate FromCubeRoots(primes: seq<nat>, ks: seq<Word>, lo: nat, hi: nat) {
    hi <= |primes| == |ks|
    && forall t | lo <= t < hi :: CubeRootBits(primes[t], CubeRoot(primes[t]), ks[t])
  }

  lemma Halves(primes: seq<nat>, ks: seq<Word>)
    requires FromCubeRoots(primes, ks, 0, 8) && FromCubeRoots(primes, ks, 8, 16)
    ensures FromCubeRoots(primes, ks, 0, 16)
  {
    hide CubeRootBits, CubeRoot;
  }

  /** The round constants are what section 4.2.2 says they are, in the order of the first 64 primes. */
  lemma RoundConstants()
    ensures |K| == 64
    ensures FromCubeRoots(PRIMES0, K[..16], 0, 16) && FromCubeRoots(PRIMES1, K[16..32], 0, 16)
    ensures FromCubeRoots(PRIMES2, K[32..48], 0, 16) && FromCubeRoots(PRIMES3, K[48..], 0, 16)
  {
    assert K[..16] == K0 && K[16..32] == K1 && K[32..48] == K2 && K[48..] == K3;
    hide FromCubeRoots, K0, K1, K2, K3, PRIMES0, PRIMES1, PRIMES2, PRIMES3;
    FirstEightOf0();
    LastEightOf0();
    FirstEightOf1();
    LastEightOf1();
    FirstEightOf2();
    LastEightOf2();
    FirstEightOf3();
    LastEightOf3();
    Halves(PRIMES0, K0);
    Halves(PRIMES1, K1);
    Halves(PRIMES2, K2);
    Halves(PRIMES3, K3);
  }

  lemma FirstEightOf0()
    ensures FromCubeRoots(PRIMES0, K0, 0, 8)
  {
    assert CubeRootBits(2, 1, 0x428a2f98);
    assert CubeRootBits(3, 1, 0x71374491);
    assert CubeRootBits(5, 1, 0xb5c0fbcf);
    assert CubeRootBits(7, 1, 0xe9b5dba5);
    assert CubeRootBits(11, 2, 0x3956c25b);
    assert CubeRootBits(13, 2, 0x59f111f1);
    assert CubeRootBits(17, 2, 0x923f82a4);
    assert CubeRootBits(19, 2, 0xab1c5ed5);
    hide CubeRootBits;
  }

  lemma LastEightOf0()
    ensures FromCubeRoots(PRIMES0, K0, 8, 16)
  {
    assert CubeRootBits(23, 2, 0xd807aa98);
    assert CubeRootBits(29, 3, 0x12835b01);
    assert CubeRootBits(31, 3, 0x243185be);
    assert CubeRootBits(37, 3, 0x550c7dc3);
    assert CubeRootBits(41, 3, 0x72be5d74);
    assert CubeRootBits(43, 3, 0x80deb1fe);
    assert CubeRootBits(47, 3, 0x9bdc06a7);
    assert CubeRootBits(53, 3, 0xc19bf174);
    hide CubeRootBits;
  }

  lemma FirstEightOf1()
    ensures FromCubeRoots(PRIMES1, K1, 0, 8)
  {
    assert CubeRootBits(59, 3, 0xe49b69c1);
    assert CubeRootBits(61, 3, 0xefbe4786);
    assert CubeRootBits(67, 4, 0x0fc19dc6);
    assert CubeRootBits(71, 4, 0x240ca1cc);
    assert CubeRootBits(73, 4, 0x2de92c6f);
    assert CubeRootBits(79, 4, 0x4a7484aa);
    assert CubeRootBits(83, 4, 0x5cb0a9dc);
    assert CubeRootBits(89, 4, 0x76f988da);
    hide CubeRootBits;
  }

  lemma LastEightOf1()
    ensures FromCubeRoots(PRIMES1, K1, 8, 16)
  {
    assert CubeRootBits(97, 4, 0x983e5152);
    assert CubeRootBits(101, 4, 0xa831c66d);
    assert CubeRootBits(103, 4, 0xb00327c8);
    assert CubeRootBits(107, 4, 0xbf597fc7);
    assert CubeRootBits(109, 4, 0xc6e00bf3);
    assert CubeRootBits(113, 4, 0xd5a79147);
    assert CubeRootBits(127, 5, 0x06ca6351);
    assert CubeRootBits(131, 5, 0x14292967);
    hide CubeRootBits;
  }

  lemma FirstEightOf2()
    ensures FromCubeRoots(PRIMES2, K2, 0, 8)
  {
    assert CubeRootBits(137, 5, 0x27b70a85);
    assert CubeRootBits(139, 5, 0x2e1b2138);
    assert CubeRootBits(149, 5, 0x4d2c6dfc);
    assert CubeRootBits(151, 5, 0x53380d13);
    assert CubeRootBits(157, 5, 0x650a7354);
    assert CubeRootBits(163, 5, 0x766a0abb);
    assert CubeRootBits(167, 5, 0x81c2c92e);
    assert CubeRootBits(173, 5, 0x92722c85);
    hide CubeRootBits;
  }

  lemma LastEightOf2()
    ensures FromCubeRoots(PRIMES2, K2, 8, 16)
  {
    assert CubeRootBits(179, 5, 0xa2bfe8a1);
    assert CubeRootBits(181, 5, 0xa81a664b);
    assert CubeRootBits(191, 5, 0xc24b8b70);
    assert CubeRootBits(193, 5, 0xc76c51a3);
    assert CubeRootBits(197, 5, 0xd192e819);
    assert CubeRootBits(199, 5, 0xd6990624);
    assert CubeRootBits(211, 5, 0xf40e3585);
    assert CubeRootBits(223, 6, 0x106aa070);
    hide CubeRootBits;
  }

  lemma FirstEightOf3()
    ensures FromCubeRoots(PRIMES3, K3, 0, 8)
  {
    assert CubeRootBits(227, 6, 0x19a4c116);
    assert CubeRootBits(229, 6, 0x1e376c08);
    assert CubeRootBits(233, 6, 0x2748774c);
    assert CubeRootBits(239, 6, 0x34b0bcb5);
    assert CubeRootBits(241, 6, 0x391c0cb3);
    assert CubeRootBits(251, 6, 0x4ed8aa4a);
    assert CubeRootBits(257, 6, 0x5b9cca4f);
    assert CubeRootBits(263, 6, 0x682e6ff3);
    hide CubeRootBits;
  }

  lemma LastEightOf3()
    ensures FromCubeRoots(PRIMES3, K3, 8, 16)
  {
    assert CubeRootBits(269, 6, 0x748f82ee);
    assert CubeRootBits(271, 6, 0x78a5636f);
    assert CubeRootBits(277, 6, 0x84c87814);
    assert CubeRootBits(281, 6, 0x8cc70208);
    assert CubeRootBits(283, 6, 0x90befffa);
    assert CubeRootBits(293, 6, 0xa4506ceb);
    assert CubeRootBits(307, 6, 0xbef9a3f7);
    assert CubeRootBits(311, 6, 0xc67178f2);
    hide CubeRootBits;
  }

  /** So are the initial hash values, by section 5.3.3. */
  lemma InitialValue(t: nat)
    requires t < 8
    ensures |INITIAL| == 8 && SquareRootBits(PRIMES0[t], SquareRoot(PRIMES0[t]), INITIAL[t])
  {
  }

  // ------------------------------------------------ padding (section 5.1.1)

  function BigEndian(w: Word): (b: seq<Byte>)
    ensures |b| == 4
  {
    [w / 0x100_0000, w / 0x1_0000 % 0x100, w / 0x100 % 0x100, w % 0x100]
  }

  function WordAt(b: seq<Byte>, at: nat): Word
    requires at + 4 <= |b|
  {
    var b0: int, b1: int, b2: int, b3: int := b[at], b[at + 1], b[at + 2], b[at + 3];
    0x100_0000 * b0 + 0x1_0000 * b1 + 0x100 * b2 + b3
  }

  /** How many zero bytes pad a message of `l` bytes: as few as make the padded length a multiple of 64. */
  function Zeros(l: nat): (k: nat)
    ensures k < 64 && (l + 9 + k) % 64 == 0
  {
    (119 - l % 64) % 64
  }

  const LENGTH_LIMIT: int := TWO32 * TWO32

  function Pad(m: seq<Byte>): (p: seq<Byte>)
    requires 8 * |m| < LENGTH_LIMIT
    ensures |p| % 64 == 0 && |m| + 9 <= |p| < |m| + 9 + 64
  {
    m + [0x80] + seq(Zeros(|m|), _ => 0) + BigEndian(8 * |m| / TWO32) + BigEndian(8 * |m| % TWO32)
  }

  // -------------------------------------------- computation (section 6.2.2)

  /** The message schedule of one block. */
  function Schedule(block: seq<Byte>, t: nat): Word
    requires |block| == 64
  {
    if t < 16 then WordAt(block, 4 * t)
    else Plus(Plus(Plus(SmallSigma1(Schedule(block, t - 2)), Schedule(block, t - 7)),
                   SmallSigma0(Schedule(block, t - 15))), Schedule(block, t - 16))
  }

  datatype Registers = Registers(a: Word, b: Word, c: Word, d: Word, e: Word, f: Word, g: Word, h: Word)

  function Round(r: Registers, k: Word, w: Word): Registers {
    var t1 := Plus(Plus(Plus(Plus(r.h, BigSigma1(r.e)), Ch(r.e, r.f, r.g)), k), w);
    var t2 := Plus(BigSigma0(r.a), Maj(r.a, r.b, r.c));
    Registers(Plus(t1, t2), r.a, r.b, r.c, Plus(r.d, t1), r.e, r.f, r.g)
  }

  function Load(hash: seq<Word>): Registers
    requires |hash| == 8
  {
    Registers(hash[0], hash[1], hash[2], hash[3], hash[4], hash[5], hash[6], hash[7])
  }

  /** The registers after `n` rounds over one block. */
  function Rounds(hash: seq<Word>, block: seq<Byte>, n: nat): Registers
    requires |hash| == 8 && |block| == 64 && n <= 64
  {
    if n == 0 then Load(hash)
    else Round(Rounds(hash, block, n - 1), K[n - 1], Schedule(block, n - 1))
  }

  function AddTo(hash: seq<Word>, r: Registers): (s: seq<Word>)
    requires |hash| == 8
    ensures |s| == 8
  {
    [Plus(hash[0], r.a), Plus(hash[1], r.b), Plus(hash[2], r.c), Plus(hash[3], r.d),
     Plus(hash[4], r.e), Plus(hash[5], r.f), Plus(hash[6], r.g), Plus(hash[7], r.h)]
  }

  /** The hash value after the first `n` blocks of a padded message. */
  function HashAfter(padded: seq<Byte>, n: nat): (hash: seq<Word>)
    requires 64 * n <= |padded|
    ensures |hash| == 8
  {
    if n == 0 then INITIAL
    else
      var hash := HashAfter(padded, n - 1);
      AddTo(hash, Rounds(hash, padded[64 * (n - 1)..64 * n], 64))
  }

  function Bytes(words: seq<Word>): (b: seq<Byte>)
    ensures |b| == 4 * |words|
  {
    if words == [] then [] else Bytes(words[..|words| - 1]) + BigEndian(words[|words| - 1])
  }

  function Sha256(m: seq<Byte>): seq<Byte>
    requires 8 * |m| < LENGTH_LIMIT
  {
    var padded := Pad(m);
    Bytes(HashAfter(padded, |padded| / 64))
  }
}
