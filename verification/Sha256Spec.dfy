/**
 * SHA-256 as FIPS 180-4 defines it: functions (section 4.1.2), constants (4.2.2), padding
 * (5.1.1), initial value (5.3.3) and the hash computation (6.2.2).
 */
module Sha256Spec {
  import opened Bytes
  import opened Bits

  type word = x: int | 0 <= x < 0x1_0000_0000

  lemma Pow2Of32()
    ensures Pow2(32) == 0x1_0000_0000
  {
    assert Pow2(8) == 0x100;
    assert Pow2(16) == 0x1_0000;
    assert Pow2(24) == 0x100_0000;
  }

  function Rotr(x: word, n: nat): nat
    requires n <= 32
  {
    Pow2Of32();
    RotateUndo(x, 32, n);
    RotateRight(x, 32, n)
  }

  function BigSigma0(x: word): nat { Xor(Xor(Rotr(x, 2), Rotr(x, 13)), Rotr(x, 22)) }
  function BigSigma1(x: word): nat { Xor(Xor(Rotr(x, 6), Rotr(x, 11)), Rotr(x, 25)) }
  function SmallSigma0(x: word): nat { Xor(Xor(Rotr(x, 7), Rotr(x, 18)), ShiftRight(x, 3)) }
  function SmallSigma1(x: word): nat { Xor(Xor(Rotr(x, 17), Rotr(x, 19)), ShiftRight(x, 10)) }

  function Ch(x: word, y: word, z: word): nat {
    Xor(And(x, y), And(Not(x, 32), z))
  }

  function Maj(x: word, y: word, z: word): nat {
    Xor(Xor(And(x, y), And(x, z)), And(y, z))
  }

  const K_FRONT: seq<word> := [
    0x428a2f98, 0x71374491, 0xb5c0fbcf, 0xe9b5dba5, 0x3956c25b,
    0x59f111f1, 0x923f82a4, 0xab1c5ed5, 0xd807aa98, 0x12835b01,
    0x243185be, 0x550c7dc3, 0x72be5d74, 0x80deb1fe, 0x9bdc06a7,
    0xc19bf174, 0xe49b69c1, 0xefbe4786, 0x0fc19dc6, 0x240ca1cc,
    0x2de92c6f, 0x4a7484aa, 0x5cb0a9dc, 0x76f988da, 0x983e5152,
    0xa831c66d, 0xb00327c8, 0xbf597fc7, 0xc6e00bf3, 0xd5a79147,
    0x06ca6351, 0x14292967]

  const K_BACK: seq<word> := [
    0x27b70a85, 0x2e1b2138, 0x4d2c6dfc, 0x53380d13, 0x650a7354,
    0x766a0abb, 0x81c2c92e, 0x92722c85, 0xa2bfe8a1, 0xa81a664b,
    0xc24b8b70, 0xc76c51a3, 0xd192e819, 0xd6990624, 0xf40e3585,
    0x106aa070, 0x19a4c116, 0x1e376c08, 0x2748774c, 0x34b0bcb5,
    0x391c0cb3, 0x4ed8aa4a, 0x5b9cca4f, 0x682e6ff3, 0x748f82ee,
    0x78a5636f, 0x84c87814, 0x8cc70208, 0x90befffa, 0xa4506ceb,
    0xbef9a3f7, 0xc67178f2]

  const K: seq<word> := K_FRONT + K_BACK

  const INITIAL: seq<word> := [
    0x6A09E667, 0xBB67AE85, 0x3C6EF372, 0xA54FF53A,
    0x510E527F, 0x9B05688C, 0x1F83D9AB, 0x5BE0CD19]

  /** Addition modulo 2^32. */
  function Sum(x: int): word {
    x % 0x1_0000_0000
  }

  lemma SumWraps(x: word, y: int)
    ensures Sum(x) == x && Sum(y + 0x1_0000_0000) == Sum(y)
  {
  }

  function WordOf(b: seq<byte>): word
    requires |b| == 4
  {
    (b[0] as int) * 0x100_0000 + (b[1] as int) * 0x1_0000 + (b[2] as int) * 0x100 + b[3]
  }

  /** Words are loaded most significant byte first: what has been stored is read back. */
  lemma WordOfStored(x: word, n: nat)
    requires n == 4
    ensures WordOf(BigEndian(x, n)) == x
  {
    var b := BigEndian(x, n);
    var (y, z, w) := (x / 256, x / 256 / 256, x / 256 / 256 / 256);
    assert BigEndian(y, n - 1) == b[..n - 1] && b[3] == x % 256;
    assert BigEndian(z, n - 2) == BigEndian(y, n - 1)[..n - 2] && b[2] == y % 256;
    assert b[1] == z % 256;
    assert BigEndian(w, n - 3) == BigEndian(z, n - 2)[..n - 3] && BigEndian(w, n - 3)[0] == w % 256;
    assert b[0] == w;
  }

  /** So different groups of four bytes are different words, and each word is stored as its bytes. */
  lemma StoredWord(b: seq<byte>)
    requires |b| == 4
    ensures BigEndian(WordOf(b), 4) == b
  {
    hide BigEndian;
    var (b0, b1, b2, b3) := (b[0] as int, b[1] as int, b[2] as int, b[3] as int);
    LowByte(b0 * 0x1_0000 + b1 * 0x100 + b2, b3, 4);
    LowByte(b0 * 0x100 + b1, b2, 3);
    LowByte(b0, b1, 2);
    LowByte(0, b0, 1);
    NoBytes(0);
  }

  lemma LowByte(high: nat, low: int, n: nat)
    requires 0 <= low < 256 && n > 0
    ensures BigEndian(high * 256 + low, n) == BigEndian(high, n - 1) + [low]
  {
    assert (high * 256 + low) / 256 == high;
  }

  lemma NoBytes(x: nat)
    ensures BigEndian(x, 0) == []
  {
  }

  // ----- the functions, bit by bit

  /** The sum of three bits modulo 2. */
  function Parity(a: nat, b: nat, c: nat): nat {
    (a + b + c) % 2
  }

  lemma RotrBit(x: word, n: nat, i: nat)
    requires n <= 32 && i < 32
    ensures Bit(Rotr(x, n), i) == Bit(x, (i + n) % 32)
  {
    hide Bit, RotateRight;
    Pow2Of32();
    RotateBit(x, 32, n, i);
    Around(i, n);
  }

  /** Section 4.1.2, bit by bit: each bit is the parity of three bits of the word. */
  lemma SigmaBits(x: word, i: nat)
    requires i < 32
    ensures Bit(BigSigma0(x), i) == Parity(Bit(x, (i + 2) % 32), Bit(x, (i + 13) % 32), Bit(x, (i + 22) % 32))
    ensures Bit(BigSigma1(x), i) == Parity(Bit(x, (i + 6) % 32), Bit(x, (i + 11) % 32), Bit(x, (i + 25) % 32))
    ensures Bit(SmallSigma0(x), i) == Parity(Bit(x, (i + 7) % 32), Bit(x, (i + 18) % 32), Bit(x, i + 3))
    ensures Bit(SmallSigma1(x), i) == Parity(Bit(x, (i + 17) % 32), Bit(x, (i + 19) % 32), Bit(x, i + 10))
  {
    hide Rotr, Bit;
    ThreeBits(Rotr(x, 2), Rotr(x, 13), Rotr(x, 22), i);
    ThreeBits(Rotr(x, 6), Rotr(x, 11), Rotr(x, 25), i);
    ThreeBits(Rotr(x, 7), Rotr(x, 18), ShiftRight(x, 3), i);
    ThreeBits(Rotr(x, 17), Rotr(x, 19), ShiftRight(x, 10), i);
    RotrBit(x, 2, i);
    RotrBit(x, 13, i);
    RotrBit(x, 22, i);
    RotrBit(x, 6, i);
    RotrBit(x, 11, i);
    RotrBit(x, 25, i);
    RotrBit(x, 7, i);
    RotrBit(x, 18, i);
    RotrBit(x, 17, i);
    RotrBit(x, 19, i);
    BitOfShift(x, 3, i);
    BitOfShift(x, 10, i);
  }

  lemma ThreeBits(a: nat, b: nat, c: nat, i: nat)
    ensures Bit(Xor(Xor(a, b), c), i) == Parity(Bit(a, i), Bit(b, i), Bit(c, i))
  {
    hide *;
    XorBit(Xor(a, b), c, i);
    XorBit(a, b, i);
    ParityOf(Bit(a, i), Bit(b, i), Bit(c, i));
  }

  lemma ParityOf(a: nat, b: nat, c: nat)
    ensures ((a + b) % 2 + c) % 2 == Parity(a, b, c)
  {
  }

  /** The first `n` words of the message schedule of a block of 64 bytes. */
  function Schedule(block: seq<byte>, n: nat): (w: seq<word>)
    requires |block| == 64
    ensures |w| == n
  {
    if n == 0 then []
    else
      var w := Schedule(block, n - 1);
      w + [if n <= 16 then WordOf(block[4 * (n - 1)..4 * n])
           else Sum(SmallSigma1(w[n - 3]) + w[n - 8] + SmallSigma0(w[n - 16]) + w[n - 17])]
  }

  function MessageSchedule(block: seq<byte>): (w: seq<word>)
    requires |block| == 64
    ensures |w| == 64
  {
    Schedule(block, 64)
  }

  /** The working variables a to h. */
  datatype Vars = Vars(a: word, b: word, c: word, d: word, e: word, f: word, g: word, h: word)

  function T1(v: Vars, k: word, w: word): word {
    Sum(v.h + BigSigma1(v.e) + Ch(v.e, v.f, v.g) + k + w)
  }

  function T2(v: Vars): word {
    Sum(BigSigma0(v.a) + Maj(v.a, v.b, v.c))
  }

  function Round(v: Vars, k: word, w: word): Vars {
    Vars(Sum(T1(v, k, w) + T2(v)), v.a, v.b, v.c, Sum(v.d + T1(v, k, w)), v.e, v.f, v.g)
  }

  /** The working variables after `n` rounds. */
  function Rounds(v: Vars, w: seq<word>, n: nat): Vars
    requires n <= |w| && n <= |K|
  {
    if n == 0 then v else Round(Rounds(v, w, n - 1), K[n - 1], w[n - 1])
  }

  function AllRounds(v: Vars, w: seq<word>): Vars
    requires |w| == 64
  {
    Rounds(v, w, 64)
  }

  function VarsOf(h: seq<word>): Vars
    requires |h| == 8
  {
    Vars(h[0], h[1], h[2], h[3], h[4], h[5], h[6], h[7])
  }

  function Added(h: seq<word>, v: Vars): (r: seq<word>)
    requires |h| == 8
    ensures |r| == 8
  {
    [Sum(h[0] as int + v.a), Sum(h[1] as int + v.b), Sum(h[2] as int + v.c), Sum(h[3] as int + v.d),
     Sum(h[4] as int + v.e), Sum(h[5] as int + v.f), Sum(h[6] as int + v.g), Sum(h[7] as int + v.h)]
  }

  /** The intermediate hash value after one more block. */
  function Compress(h: seq<word>, block: seq<byte>): (r: seq<word>)
    requires |h| == 8 && |block| == 64
    ensures |r| == 8
  {
    Added(h, AllRounds(VarsOf(h), MessageSchedule(block)))
  }

  /** The intermediate hash value after all blocks of `m`. */
  function Blocks(m: seq<byte>): (h: seq<word>)
    requires |m| % 64 == 0
    ensures |h| == 8
    decreases |m|
  {
    if m == [] then INITIAL else Compress(Blocks(m[..|m| - 64]), m[|m| - 64..])
  }

  function Zeros(n: nat): (s: seq<byte>)
    ensures |s| == n && forall i :: 0 <= i < n ==> s[i] == 0
  {
    if n == 0 then [] else Zeros(n - 1) + [0]
  }

  /** The `n` low bytes of `x`, most significant first. */
  function BigEndian(x: nat, n: nat): (s: seq<byte>)
    ensures |s| == n
    decreases n
  {
    if n == 0 then [] else BigEndian(x / 256, n - 1) + [x % 256]
  }

  /** With `z` zero bytes the padding of `n` bytes ends a block. */
  predicate EndsBlock(n: nat, z: nat) {
    (n + 1 + z + 8) % 64 == 0
  }

  /** How many zero bytes the padding has. */
  function ZeroCount(n: nat): (z: nat)
    ensures EndsBlock(n, z)
  {
    (55 - n) % 64
  }

  /** It is the least number that ends a block. */
  lemma ZeroCountIsLeast(n: nat, z: nat)
    requires EndsBlock(n, z)
    ensures ZeroCount(n) <= z
  {
  }

  /** The bit length of the message modulo 2^64, in eight bytes. */
  function LengthField(m: seq<byte>): (s: seq<byte>)
    ensures |s| == 8
  {
    BigEndian(8 * |m| % 0x1_0000_0000_0000_0000, 8)
  }

  /** The message with its padding; the length field holds the bit length modulo 2^64. */
  function Padded(m: seq<byte>): (p: seq<byte>)
    ensures |p| % 64 == 0
  {
    m + [0x80] + Zeros(ZeroCount(|m|)) + LengthField(m)
  }

  function Output(h: seq<word>): (s: seq<byte>)
    ensures |s| == 4 * |h|
  {
    if h == [] then [] else Output(h[..|h| - 1]) + BigEndian(h[|h| - 1], 4)
  }

  function Digest(m: seq<byte>): seq<byte> {
    Output(Blocks(Padded(m)))
  }

  // ----- the padding loses nothing

  lemma {:induction false} BigEndianInjective(x: nat, y: nat, n: nat)
    requires BigEndian(x, n) == BigEndian(y, n)
    requires x < Pow2(8 * n) && y < Pow2(8 * n)
    ensures x == y
    decreases n
  {
    if n > 0 {
      assert Pow2(8 * n) == 256 * Pow2(8 * (n - 1)) by { Pow2Add(8, 8 * (n - 1)); assert Pow2(8) == 256; }
      var a, b := BigEndian(x, n), BigEndian(y, n);
      assert a[..n - 1] == BigEndian(x / 256, n - 1) && b[..n - 1] == BigEndian(y / 256, n - 1);
      assert a[n - 1] == x % 256 && b[n - 1] == y % 256;
      BigEndianInjective(x / 256, y / 256, n - 1);
    }
  }

  /** Below 2^61 bytes, where the standard is defined, different messages are padded differently. */
  lemma PaddingInjective(m: seq<byte>, m': seq<byte>)
    requires |m| < 0x2000_0000_0000_0000 && |m'| < 0x2000_0000_0000_0000
    requires Padded(m) == Padded(m')
    ensures m == m'
  {
    PaddedParts(m);
    PaddedParts(m');
    LengthFieldInjective(m, m', 8);
  }

  lemma LengthFieldInjective(m: seq<byte>, m': seq<byte>, n: nat)
    requires |m| < 0x2000_0000_0000_0000 && |m'| < 0x2000_0000_0000_0000
    requires n == 8 && LengthField(m) == LengthField(m')
    ensures |m| == |m'|
  {
    hide BigEndian;
    Pow2Of64();
    var x: nat, y: nat := 8 * |m|, 8 * |m'|;
    assert x % 0x1_0000_0000_0000_0000 == x && y % 0x1_0000_0000_0000_0000 == y;
    assert BigEndian(x, n) == BigEndian(y, n);
    BigEndianInjective(x, y, n);
  }

  lemma PaddedParts(m: seq<byte>)
    ensures |Padded(m)| >= |m| + 8
    ensures Padded(m)[..|m|] == m
    ensures Padded(m)[|Padded(m)| - 8..] == LengthField(m)
  {
    var z := [0x80] + Zeros(ZeroCount(|m|));
    assert Padded(m) == (m + z) + LengthField(m);
  }

  lemma Pow2Of64()
    ensures Pow2(8 * 8) == 0x1_0000_0000_0000_0000
  {
    Pow2Of32();
    Pow2Add(32, 32);
  }
}
