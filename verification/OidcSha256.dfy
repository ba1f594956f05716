/** The admin UI's SHA-256: JavaScript numbers, bitwise operators that work on signed 32-bit values, and
    typed arrays filled in place. */
module OidcSha256 {
  import opened Wrappers
  import opened Fips180

  // ------------------------------------------------- JavaScript arithmetic

  /** Numbers up to here are exact. */
  const MAX_SAFE: int := 0x1F_FFFF_FFFF_FFFF

  function ToUint32(x: int): Word { x % TWO32 }

  function ToInt32(x: int): (r: int)
    ensures -0x8000_0000 <= r < 0x8000_0000
  {
    if x % TWO32 < 0x8000_0000 then x % TWO32 else x % TWO32 - TWO32
  }

  /** The range of 32-bit numbers, signed or not. */
  predicate Signed(x: int) {
    -0x8000_0000 <= x < 0x1_0000_0000
  }

  /** Addition and multiplication, where they are exact. */
  function Sum(x: int, y: int): int
    requires -MAX_SAFE <= x + y <= MAX_SAFE
  {
    x + y
  }

  function Product(x: int, y: int): int
    requires -MAX_SAFE <= x * y <= MAX_SAFE
  {
    x * y
  }

  function BitXor(x: int, y: int): (r: int)
    ensures Signed(r)
  {
    ToInt32(Xor(ToUint32(x), ToUint32(y)))
  }

  function BitAnd(x: int, y: int): int { ToInt32(And(ToUint32(x), ToUint32(y))) }
  function BitOr(x: int, y: int): int { ToInt32(Or(ToUint32(x), ToUint32(y))) }
  function BitNot(x: int): int { ToInt32(Not(ToUint32(x))) }

  /** `x >>> n` */
  function ShiftRight(x: int, n: nat): Word
    requires n < 32
  {
    Shr(ToUint32(x), n)
  }

  /** `x << n` */
  function ShiftLeft(x: int, n: nat): int
    requires n < 32
  {
    ToInt32(Shl(ToUint32(x), n))
  }

  /** `x >> 6 << 6`, arithmetically: the sign stays, the low six bits go. */
  function DropSixBits(x: int): int {
    ToInt32(ToInt32(x) / 64 * 64)
  }

  /** `rr` */
  function RotateRight(x: int, n: nat): int
    requires 0 < n < 32
  {
    BitOr(ShiftRight(x, n), ShiftLeft(x, 32 - n))
  }

  lemma Unsigned(w: Word)
    ensures ToUint32(ToInt32(w)) == w
  {
  }

  /** The signed results the operators leave are the words of the standard, seen as signed numbers. */
  lemma RotateIsRotr(x: Word, n: nat)
    requires 0 < n < 32
    ensures ToUint32(RotateRight(x, n)) == Rotr(x, n)
  {
    hide ToUint32, ToInt32, Or, Shr, Shl;
    Unsigned(Shl(x, 32 - n));
    Unsigned(Rotr(x, n));
    Already(x);
    Already(Shr(x, n));
  }

  lemma Already(w: Word)
    ensures ToUint32(w) == w
  {
  }

  lemma XorUnsigned(x: int, y: int)
    ensures ToUint32(BitXor(x, y)) == Xor(ToUint32(x), ToUint32(y))
  {
  }

  lemma AndUnsigned(x: int, y: int)
    ensures ToUint32(BitAnd(x, y)) == And(ToUint32(x), ToUint32(y))
  {
  }

  /** Three rotations, or two and a shift, combined. */
  lemma XorOfThree(x: int, y: int, z: int)
    ensures ToUint32(BitXor(BitXor(x, y), z)) == Xor(Xor(ToUint32(x), ToUint32(y)), ToUint32(z))
  {
    hide *;
    XorUnsigned(x, y);
    XorUnsigned(BitXor(x, y), z);
  }

  /** `(e & f) ^ (~e & g)` */
  function Choose(e: Word, f: Word, g: Word): (r: int)
    ensures Signed(r)
  {
    BitXor(BitAnd(e, f), BitAnd(BitNot(e), g))
  }

  lemma ChooseIsCh(e: Word, f: Word, g: Word)
    ensures ToUint32(Choose(e, f, g)) == Ch(e, f, g)
  {
    hide ToUint32, ToInt32, Xor, And, Not, BitAnd, BitXor;
    Already(e);
    Already(f);
    Already(g);
    AndUnsigned(e, f);
    AndUnsigned(BitNot(e), g);
    Unsigned(Not(e));
    XorUnsigned(BitAnd(e, f), BitAnd(BitNot(e), g));
  }

  /** `(a & b) ^ (a & c) ^ (b & c)` */
  function Majority(a: Word, b: Word, c: Word): (r: int)
    ensures Signed(r)
  {
    BitXor(BitXor(BitAnd(a, b), BitAnd(a, c)), BitAnd(b, c))
  }

  lemma MajorityIsMaj(a: Word, b: Word, c: Word)
    ensures ToUint32(Majority(a, b, c)) == Maj(a, b, c)
  {
    hide ToUint32, ToInt32, Xor, And, BitAnd, BitXor;
    Already(a);
    Already(b);
    Already(c);
    AndUnsigned(a, b);
    AndUnsigned(a, c);
    AndUnsigned(b, c);
    XorOfThree(BitAnd(a, b), BitAnd(a, c), BitAnd(b, c));
  }

  function Rotations(x: Word, i: nat, j: nat, k: nat): (r: int)
    requires 0 < i < 32 && 0 < j < 32 && 0 < k < 32
    ensures Signed(r)
  {
    BitXor(BitXor(RotateRight(x, i), RotateRight(x, j)), RotateRight(x, k))
  }

  lemma RotationsAreSigma(x: Word, i: nat, j: nat, k: nat)
    requires 0 < i < 32 && 0 < j < 32 && 0 < k < 32
    ensures ToUint32(Rotations(x, i, j, k)) == Xor(Xor(Rotr(x, i), Rotr(x, j)), Rotr(x, k))
  {
    hide ToUint32, Xor, Rotr, BitXor, RotateRight;
    RotateIsRotr(x, i);
    RotateIsRotr(x, j);
    RotateIsRotr(x, k);
    XorOfThree(RotateRight(x, i), RotateRight(x, j), RotateRight(x, k));
  }

  function RotationsAndShift(x: Word, i: nat, j: nat, k: nat): (r: int)
    requires 0 < i < 32 && 0 < j < 32 && 0 < k < 32
    ensures Signed(r)
  {
    BitXor(BitXor(RotateRight(x, i), RotateRight(x, j)), ShiftRight(x, k))
  }

  lemma RotationsAndShiftAreSigma(x: Word, i: nat, j: nat, k: nat)
    requires 0 < i < 32 && 0 < j < 32 && 0 < k < 32
    ensures ToUint32(RotationsAndShift(x, i, j, k)) == Xor(Xor(Rotr(x, i), Rotr(x, j)), Shr(x, k))
  {
    hide ToUint32, Xor, Rotr, Shr, BitXor, RotateRight;
    Already(x);
    Already(Shr(x, k));
    RotateIsRotr(x, i);
    RotateIsRotr(x, j);
    XorOfThree(RotateRight(x, i), RotateRight(x, j), ShiftRight(x, k));
  }

  /** An exact sum brought back to 32 bits is addition modulo 2^32. */
  lemma SumIsPlus(x: int, y: int)
    requires -MAX_SAFE <= x + y <= MAX_SAFE
    ensures ToUint32(Sum(x, y)) == Plus(ToUint32(x), ToUint32(y))
  {
  }

  // ------------------------------------------------------------- padding

  /** The size of the padded array: `((len + 8) >> 6 << 6) + 64`. */
  function PaddedSize(len: nat): int
    requires len + 8 <= MAX_SAFE
  {
    DropSixBits(Sum(len, 8)) + 64
  }

  /** The size is the standard's for exactly the lengths whose sum with 8 fits a signed 32-bit number;
      for every longer message it is too small, and the copy into it is refused. */
  lemma AdmittedLengths(len: nat)
    requires len + 8 <= MAX_SAFE
    ensures len + 8 < 0x8000_0000 <==> PaddedSize(len) >= len + 9
    ensures len + 8 < 0x8000_0000 ==> PaddedSize(len) == len + 9 + Zeros(len)
  {
    hide DropSixBits, Zeros;
    Dropped(len + 8);
    ZerosFill(len);
  }

  lemma Dropped(x: nat)
    ensures DropSixBits(x) + 64 <= 0x8000_0000
    ensures x < 0x8000_0000 ==> DropSixBits(x) == x / 64 * 64
  {
    assert ToInt32(x) / 64 * 64 <= ToInt32(x) <= 0x7FFF_FFFF;
    assert ToInt32(x) / 64 <= 0x1FF_FFFF;
    assert x < 0x8000_0000 ==> ToInt32(x) == x;
  }

  lemma ZerosFill(len: nat)
    ensures len + 9 + Zeros(len) == (len + 8) / 64 * 64 + 64
  {
    var q, r := len / 64, len % 64;
    assert (len + 8) / 64 == if r < 56 then q else q + 1;
  }

  /** `DataView.setUint32` */
  method SetUint32(view: array<Byte>, at: nat, value: Word)
    requires at + 4 <= view.Length
    modifies view
    ensures view[..] == old(view[..at]) + BigEndian(value) + old(view[at + 4..])
  {
    var b := BigEndian(value);
    view[at], view[at + 1], view[at + 2], view[at + 3] := b[0], b[1], b[2], b[3];
  }

  method PadInto(bytes: seq<Byte>) returns (padded: array<Byte>)
    requires |bytes| + 8 < 0x8000_0000
    ensures fresh(padded) && padded[..] == Pad(bytes)
  {
    var len := |bytes|;
    var bitLen := Product(len, 8);
    AdmittedLengths(len);
    padded := new Byte[PaddedSize(len)](_ => 0);
    forall i | 0 <= i < len {
      padded[i] := bytes[i];
    }
    padded[len] := 0x80;
    assert padded[..] == bytes + [0x80] + seq(Zeros(len) + 8, _ => 0);
    SetUint32(padded, padded.Length - 4, ToUint32(bitLen));
    SetUint32(padded, padded.Length - 8, bitLen / TWO32);
    assert padded[..] == Pad(bytes);
  }

  // --------------------------------------------------------- compression

  lemma WordInBlock(padded: seq<Byte>, off: nat, t: nat)
    requires off + 64 <= |padded| && t < 16
    ensures WordAt(padded, off + 4 * t) == Schedule(padded[off..off + 64], t)
  {
  }

  /** `w[i] = (w[i - 16] + s0 + w[i - 7] + s1) >>> 0` */
  lemma NextOfSchedule(w: seq<Word>, block: seq<Byte>, i: nat)
    requires 16 <= i <= |w| && |block| == 64
    requires forall t | 0 <= t < i :: w[t] == Schedule(block, t)
    ensures ToUint32(Sum(Sum(Sum(w[i - 16], RotationsAndShift(w[i - 15], 7, 18, 3)), w[i - 7]),
                         RotationsAndShift(w[i - 2], 17, 19, 10))) == Schedule(block, i)
  {
    hide ToUint32, RotationsAndShift, Plus, SmallSigma0, SmallSigma1, WordAt;
    NextWord(w[i - 16], w[i - 15], w[i - 7], w[i - 2]);
  }

  method FillSchedule(w: array<Word>, padded: array<Byte>, off: nat)
    requires w.Length == 64 && off + 64 <= padded.Length
    modifies w
    ensures forall t | 0 <= t < 64 :: w[t] == Schedule(padded[off..off + 64], t)
  {
    hide ToUint32, RotationsAndShift, Schedule, WordAt;
    ghost var block := padded[off..off + 64];
    for i := 0 to 16
      invariant padded[off..off + 64] == block
      invariant forall t | 0 <= t < i :: w[t] == Schedule(block, t)
    {
      WordInBlock(padded[..], off, i);
      assert padded[..][off..off + 64] == block;
      w[i] := WordAt(padded[..], off + i * 4);
    }
    for i := 16 to 64
      invariant padded[off..off + 64] == block
      invariant forall t | 0 <= t < i :: w[t] == Schedule(block, t)
    {
      var s0 := RotationsAndShift(w[i - 15], 7, 18, 3);
      var s1 := RotationsAndShift(w[i - 2], 17, 19, 10);
      NextOfSchedule(w[..], block, i);
      w[i] := ToUint32(Sum(Sum(Sum(w[i - 16], s0), w[i - 7]), s1));
    }
  }

  /** The order in which the four terms are added makes no difference. */
  lemma NextWord(w16: Word, w15: Word, w7: Word, w2: Word)
    ensures ToUint32(Sum(Sum(Sum(w16, RotationsAndShift(w15, 7, 18, 3)), w7), RotationsAndShift(w2, 17, 19, 10)))
         == Plus(Plus(Plus(SmallSigma1(w2), w7), SmallSigma0(w15)), w16)
  {
    hide ToUint32, Sum, Plus, Xor, Rotr, Shr, RotationsAndShift;
    var s0, s1 := RotationsAndShift(w15, 7, 18, 3), RotationsAndShift(w2, 17, 19, 10);
    RotationsAndShiftAreSigma(w15, 7, 18, 3);
    RotationsAndShiftAreSigma(w2, 17, 19, 10);
    Already(w16);
    Already(w7);
    ThreeSums(w16, s0, w7, s1);
    Reorder(w16, ToUint32(s0), w7, ToUint32(s1));
  }

  lemma ThreeSums(x: int, y: int, z: int, u: int)
    requires Signed(x) && Signed(y) && Signed(z) && Signed(u)
    ensures ToUint32(Sum(Sum(Sum(x, y), z), u))
         == Plus(Plus(Plus(ToUint32(x), ToUint32(y)), ToUint32(z)), ToUint32(u))
  {
    hide ToUint32, Plus;
    SumIsPlus(x, y);
    SumIsPlus(Sum(x, y), z);
    SumIsPlus(Sum(Sum(x, y), z), u);
  }

  lemma FourSums(x: int, y: int, z: int, u: int, v: int)
    requires Signed(x) && Signed(y) && Signed(z) && Signed(u) && Signed(v)
    ensures ToUint32(Sum(Sum(Sum(Sum(x, y), z), u), v))
         == Plus(Plus(Plus(Plus(ToUint32(x), ToUint32(y)), ToUint32(z)), ToUint32(u)), ToUint32(v))
  {
    hide ToUint32, Plus;
    ThreeSums(x, y, z, u);
    SumIsPlus(Sum(Sum(Sum(x, y), z), u), v);
  }

  lemma PlusAssociates(a: Word, b: Word, c: Word)
    ensures Plus(Plus(a, b), c) == Plus(a, Plus(b, c))
    ensures Plus(a, b) == Plus(b, a)
  {
  }

  lemma Reorder(a: Word, b: Word, c: Word, d: Word)
    ensures Plus(Plus(Plus(a, b), c), d) == Plus(Plus(Plus(d, c), b), a)
  {
    hide Plus;
    PlusAssociates(a, b, c);
    PlusAssociates(b, c, a);
    PlusAssociates(c, b, d);
    PlusAssociates(d, c, b);
    PlusAssociates(Plus(b, c), a, d);
    PlusAssociates(a, Plus(b, c), d);
    PlusAssociates(Plus(Plus(d, c), b), a, 0);
    PlusAssociates(d, Plus(c, b), a);
    PlusAssociates(Plus(c, b), d, a);
  }

  /** One pass of the inner loop is one round. */
  lemma PassIsRound(r: Registers, k: Word, w: Word)
    ensures var s1, ch := Rotations(r.e, 6, 11, 25), Choose(r.e, r.f, r.g);
            var t1 := ToUint32(Sum(Sum(Sum(Sum(r.h, s1), ch), k), w));
            var t2 := ToUint32(Sum(Rotations(r.a, 2, 13, 22), Majority(r.a, r.b, r.c)));
            Round(r, k, w) == Registers(ToUint32(Sum(t1, t2)), r.a, r.b, r.c, ToUint32(Sum(r.d, t1)), r.e, r.f, r.g)
  {
    var s1, ch := Rotations(r.e, 6, 11, 25), Choose(r.e, r.f, r.g);
    var s0, maj := Rotations(r.a, 2, 13, 22), Majority(r.a, r.b, r.c);
    hide ToUint32, Plus, Ch, Maj, Xor, Rotr, Rotations, Choose, Majority;
    RotationsAreSigma(r.e, 6, 11, 25);
    RotationsAreSigma(r.a, 2, 13, 22);
    ChooseIsCh(r.e, r.f, r.g);
    MajorityIsMaj(r.a, r.b, r.c);
    FourSums(r.h, s1, ch, k, w);
    SumIsPlus(s0, maj);
    var t1, t2 := ToUint32(Sum(Sum(Sum(Sum(r.h, s1), ch), k), w)), ToUint32(Sum(s0, maj));
    SumIsPlus(t1, t2);
    SumIsPlus(r.d, t1);
    Already(r.h);
    Already(k);
    Already(w);
    Already(r.d);
    Already(t1);
    Already(t2);
  }

  /** The eight sums that end a block. */
  lemma SumsAreAddTo(hash: seq<Word>, r: Registers)
    requires |hash| == 8
    ensures AddTo(hash, r) ==
      [ToUint32(Sum(hash[0], r.a)), ToUint32(Sum(hash[1], r.b)),
       ToUint32(Sum(hash[2], r.c)), ToUint32(Sum(hash[3], r.d)),
       ToUint32(Sum(hash[4], r.e)), ToUint32(Sum(hash[5], r.f)),
       ToUint32(Sum(hash[6], r.g)), ToUint32(Sum(hash[7], r.h))]
  {
  }

  /** The sixty-four passes of the inner loop, from the registers loaded with the hash so far. */
  method Mix(start: Registers, w: array<Word>, ghost hash: seq<Word>, ghost block: seq<Byte>) returns (r: Registers)
    requires w.Length == 64 && |hash| == 8 && |block| == 64 && start == Load(hash)
    requires forall t | 0 <= t < 64 :: w[t] == Schedule(block, t)
    ensures r == Rounds(hash, block, 64)
  {
    hide ToUint32, Plus, Round, Rotations, Choose, Majority, Schedule, K, FromCubeRoots;
    var a, b, c, d, e, f, g, h := start.a, start.b, start.c, start.d, start.e, start.f, start.g, start.h;
    RoundConstants();
    for i := 0 to 64
      invariant Registers(a, b, c, d, e, f, g, h) == Rounds(hash, block, i)
    {
      PassIsRound(Registers(a, b, c, d, e, f, g, h), K[i], w[i]);
      var S1 := Rotations(e, 6, 11, 25);
      var ch := Choose(e, f, g);
      var t1 := ToUint32(Sum(Sum(Sum(Sum(h, S1), ch), K[i]), w[i]));
      var S0 := Rotations(a, 2, 13, 22);
      var maj := Majority(a, b, c);
      var t2 := ToUint32(Sum(S0, maj));
      h := g; g := f; f := e; e := ToUint32(Sum(d, t1));
      d := c; c := b; b := a; a := ToUint32(Sum(t1, t2));
    }
    r := Registers(a, b, c, d, e, f, g, h);
  }

  method Compress(H: array<Word>, w: array<Word>, ghost block: seq<Byte>)
    requires H.Length == 8 && w.Length == 64 && H != w && |block| == 64
    requires forall t | 0 <= t < 64 :: w[t] == Schedule(block, t)
    modifies H
    ensures H[..] == AddTo(old(H[..]), Rounds(old(H[..]), block, 64))
  {
    hide ToUint32, Sum, AddTo, Rounds;
    ghost var hash := H[..];
    var r := Mix(Registers(H[0], H[1], H[2], H[3], H[4], H[5], H[6], H[7]), w, hash, block);
    SumsAreAddTo(hash, r);
    H[0], H[1] := ToUint32(Sum(H[0], r.a)), ToUint32(Sum(H[1], r.b));
    H[2], H[3] := ToUint32(Sum(H[2], r.c)), ToUint32(Sum(H[3], r.d));
    H[4], H[5] := ToUint32(Sum(H[4], r.e)), ToUint32(Sum(H[5], r.f));
    H[6], H[7] := ToUint32(Sum(H[6], r.g)), ToUint32(Sum(H[7], r.h));
  }

  /** The hash words, most significant byte first. */
  method Output(H: array<Word>) returns (out: array<Byte>)
    requires H.Length == 8
    ensures fresh(out) && out[..] == Bytes(H[..])
  {
    hide BigEndian;
    out := new Byte[32](_ => 0);
    for i := 0 to 8
      invariant out[..4 * i] == Bytes(H[..i])
    {
      ghost var done := out[..4 * i];
      SetUint32(out, i * 4, H[i]);
      assert out[..4 * (i + 1)] == done + BigEndian(H[i]);
      assert H[..i + 1][..i] == H[..i];
    }
    assert out[..] == out[..32] && H[..8] == H[..];
  }

  /** `sha256(bytes)` is SHA-256 of `bytes`, for every length the padding admits. */
  method Hash(bytes: seq<Byte>) returns (out: array<Byte>)
    requires |bytes| + 8 < 0x8000_0000
    ensures fresh(out) && out[..] == Sha256(bytes)
  {
    hide AddTo, Rounds, Schedule, Pad, INITIAL, Bytes;
    var H := new Word[8](i requires 0 <= i < 8 => InitialWord(i));
    assert H[..] == HashAfter([], 0) by {
      InitialWords(H[..]);
    }
    var padded := PadInto(bytes);
    ghost var message := padded[..];
    var w := new Word[64](_ => 0);
    var off := 0;
    while off < padded.Length
      invariant off % 64 == 0 && off <= padded.Length && padded[..] == message
      invariant H[..] == HashAfter(message, off / 64)
    {
      FillSchedule(w, padded, off);
      Compress(H, w, padded[off..off + 64]);
      assert padded[off..off + 64] == message[64 * (off / 64)..64 * (off / 64 + 1)];
      off := off + 64;
    }
    out := Output(H);
  }

  function InitialWord(i: nat): Word
    requires i < 8
  {
    INITIAL[i]
  }

  lemma InitialWords(hash: seq<Word>)
    requires |hash| == 8 && forall i | 0 <= i < 8 :: hash[i] == InitialWord(i)
    ensures hash == INITIAL
  {
  }
}
