/**
 * Where the constants of SHA-256 come from: sections 4.2.2 and 5.3.3 of FIPS 180-4 take them
 * from the roots of the first primes.
 */
module Sha256Constants {
  import opened Sha256Spec

  const PRIMES_FRONT: seq<nat> := [
    2, 3, 5, 7, 11, 13, 17, 19, 23, 29, 31, 37, 41, 43, 47, 53,
    59, 61, 67, 71, 73, 79, 83, 89, 97, 101, 103, 107, 109, 113, 127, 131]

  const PRIMES_BACK: seq<nat> := [
    137, 139, 149, 151, 157, 163, 167, 173, 179, 181, 191, 193, 197, 199, 211, 223,
    227, 229, 233, 239, 241, 251, 257, 263, 269, 271, 277, 281, 283, 293, 307, 311]

  /** The first 64 primes. */
  const PRIMES: seq<nat> := PRIMES_FRONT + PRIMES_BACK

  /** `k` is the first 32 bits of the fraction of the cube root of `p`, whose whole part is `whole`. */
  ghost predicate IsCubeRootFraction(k: int, p: int, whole: int) {
    var r := whole * 0x1_0000_0000 + k;
    && whole * whole * whole <= p < (whole + 1) * (whole + 1) * (whole + 1)
    && r * r * r <= p * 0x1_0000_0000_0000_0000_0000_0000 < (r + 1) * (r + 1) * (r + 1)
  }

  ghost predicate IsSquareRootFraction(k: int, p: int, whole: int) {
    var r := whole * 0x1_0000_0000 + k;
    && whole * whole <= p < (whole + 1) * (whole + 1)
    && r * r <= p * 0x1_0000_0000_0000_0000 < (r + 1) * (r + 1)
  }

  /** The round constants are the fractions of the cube roots of the first 64 primes. */
  lemma RoundConstants(i: nat)
    requires i < 64
    ensures exists whole :: IsCubeRootFraction(K[i], PRIMES[i], whole)
  {
    hide IsCubeRootFraction;
    match i / 8 {
      case 0 => Constants0(i);
      case 1 => Constants8(i);
      case 2 => Constants16(i);
      case 3 => Constants24(i);
      case 4 => Constants32(i);
      case 5 => Constants40(i);
      case 6 => Constants48(i);
      case _ => Constants56(i);
    }
  }

  lemma Constants0(i: nat)
    requires 0 <= i < 8
    ensures exists whole :: IsCubeRootFraction(K[i], PRIMES[i], whole)
  {
    hide IsCubeRootFraction;
    Roots0();
    match i {
      case 0 => assert IsCubeRootFraction(K[0], PRIMES[0], 1);
      case 1 => assert IsCubeRootFraction(K[1], PRIMES[1], 1);
      case 2 => assert IsCubeRootFraction(K[2], PRIMES[2], 1);
      case 3 => assert IsCubeRootFraction(K[3], PRIMES[3], 1);
      case 4 => assert IsCubeRootFraction(K[4], PRIMES[4], 2);
      case 5 => assert IsCubeRootFraction(K[5], PRIMES[5], 2);
      case 6 => assert IsCubeRootFraction(K[6], PRIMES[6], 2);
      case 7 => assert IsCubeRootFraction(K[7], PRIMES[7], 2);
    }
  }

  lemma Roots0()
    ensures IsCubeRootFraction(0x428a2f98, 2, 1) && IsCubeRootFraction(0x71374491, 3, 1)
    ensures IsCubeRootFraction(0xb5c0fbcf, 5, 1) && IsCubeRootFraction(0xe9b5dba5, 7, 1)
    ensures IsCubeRootFraction(0x3956c25b, 11, 2) && IsCubeRootFraction(0x59f111f1, 13, 2)
    ensures IsCubeRootFraction(0x923f82a4, 17, 2) && IsCubeRootFraction(0xab1c5ed5, 19, 2)
  {
  }

  lemma Constants8(i: nat)
    requires 8 <= i < 16
    ensures exists whole :: IsCubeRootFraction(K[i], PRIMES[i], whole)
  {
    hide IsCubeRootFraction;
    Roots8();
    match i {
      case 8 => assert IsCubeRootFraction(K[8], PRIMES[8], 2);
      case 9 => assert IsCubeRootFraction(K[9], PRIMES[9], 3);
      case 10 => assert IsCubeRootFraction(K[10], PRIMES[10], 3);
      case 11 => assert IsCubeRootFraction(K[11], PRIMES[11], 3);
      case 12 => assert IsCubeRootFraction(K[12], PRIMES[12], 3);
      case 13 => assert IsCubeRootFraction(K[13], PRIMES[13], 3);
      case 14 => assert IsCubeRootFraction(K[14], PRIMES[14], 3);
      case 15 => assert IsCubeRootFraction(K[15], PRIMES[15], 3);
    }
  }

  lemma Roots8()
    ensures IsCubeRootFraction(0xd807aa98, 23, 2) && IsCubeRootFraction(0x12835b01, 29, 3)
    ensures IsCubeRootFraction(0x243185be, 31, 3) && IsCubeRootFraction(0x550c7dc3, 37, 3)
    ensures IsCubeRootFraction(0x72be5d74, 41, 3) && IsCubeRootFraction(0x80deb1fe, 43, 3)
    ensures IsCubeRootFraction(0x9bdc06a7, 47, 3) && IsCubeRootFraction(0xc19bf174, 53, 3)
  {
  }

  lemma Constants16(i: nat)
    requires 16 <= i < 24
    ensures exists whole :: IsCubeRootFraction(K[i], PRIMES[i], whole)
  {
    hide IsCubeRootFraction;
    Roots16();
    match i {
      case 16 => assert IsCubeRootFraction(K[16], PRIMES[16], 3);
      case 17 => assert IsCubeRootFraction(K[17], PRIMES[17], 3);
      case 18 => assert IsCubeRootFraction(K[18], PRIMES[18], 4);
      case 19 => assert IsCubeRootFraction(K[19], PRIMES[19], 4);
      case 20 => assert IsCubeRootFraction(K[20], PRIMES[20], 4);
      case 21 => assert IsCubeRootFraction(K[21], PRIMES[21], 4);
      case 22 => assert IsCubeRootFraction(K[22], PRIMES[22], 4);
      case 23 => assert IsCubeRootFraction(K[23], PRIMES[23], 4);
    }
  }

  lemma Roots16()
    ensures IsCubeRootFraction(0xe49b69c1, 59, 3) && IsCubeRootFraction(0xefbe4786, 61, 3)
    ensures IsCubeRootFraction(0x0fc19dc6, 67, 4) && IsCubeRootFraction(0x240ca1cc, 71, 4)
    ensures IsCubeRootFraction(0x2de92c6f, 73, 4) && IsCubeRootFraction(0x4a7484aa, 79, 4)
    ensures IsCubeRootFraction(0x5cb0a9dc, 83, 4) && IsCubeRootFraction(0x76f988da, 89, 4)
  {
  }

  lemma Constants24(i: nat)
    requires 24 <= i < 32
    ensures exists whole :: IsCubeRootFraction(K[i], PRIMES[i], whole)
  {
    hide IsCubeRootFraction;
    Roots24();
    match i {
      case 24 => assert IsCubeRootFraction(K[24], PRIMES[24], 4);
      case 25 => assert IsCubeRootFraction(K[25], PRIMES[25], 4);
      case 26 => assert IsCubeRootFraction(K[26], PRIMES[26], 4);
      case 27 => assert IsCubeRootFraction(K[27], PRIMES[27], 4);
      case 28 => assert IsCubeRootFraction(K[28], PRIMES[28], 4);
      case 29 => assert IsCubeRootFraction(K[29], PRIMES[29], 4);
      case 30 => assert IsCubeRootFraction(K[30], PRIMES[30], 5);
      case 31 => assert IsCubeRootFraction(K[31], PRIMES[31], 5);
    }
  }

  lemma Roots24()
    ensures IsCubeRootFraction(0x983e5152, 97, 4) && IsCubeRootFraction(0xa831c66d, 101, 4)
    ensures IsCubeRootFraction(0xb00327c8, 103, 4) && IsCubeRootFraction(0xbf597fc7, 107, 4)
    ensures IsCubeRootFraction(0xc6e00bf3, 109, 4) && IsCubeRootFraction(0xd5a79147, 113, 4)
    ensures IsCubeRootFraction(0x06ca6351, 127, 5) && IsCubeRootFraction(0x14292967, 131, 5)
  {
  }

  lemma Constants32(i: nat)
    requires 32 <= i < 40
    ensures exists whole :: IsCubeRootFraction(K[i], PRIMES[i], whole)
  {
    hide IsCubeRootFraction;
    Roots32();
    match i {
      case 32 => assert IsCubeRootFraction(K[32], PRIMES[32], 5);
      case 33 => assert IsCubeRootFraction(K[33], PRIMES[33], 5);
      case 34 => assert IsCubeRootFraction(K[34], PRIMES[34], 5);
      case 35 => assert IsCubeRootFraction(K[35], PRIMES[35], 5);
      case 36 => assert IsCubeRootFraction(K[36], PRIMES[36], 5);
      case 37 => assert IsCubeRootFraction(K[37], PRIMES[37], 5);
      case 38 => assert IsCubeRootFraction(K[38], PRIMES[38], 5);
      case 39 => assert IsCubeRootFraction(K[39], PRIMES[39], 5);
    }
  }

  lemma Roots32()
    ensures IsCubeRootFraction(0x27b70a85, 137, 5) && IsCubeRootFraction(0x2e1b2138, 139, 5)
    ensures IsCubeRootFraction(0x4d2c6dfc, 149, 5) && IsCubeRootFraction(0x53380d13, 151, 5)
    ensures IsCubeRootFraction(0x650a7354, 157, 5) && IsCubeRootFraction(0x766a0abb, 163, 5)
    ensures IsCubeRootFraction(0x81c2c92e, 167, 5) && IsCubeRootFraction(0x92722c85, 173, 5)
  {
  }

  lemma Constants40(i: nat)
    requires 40 <= i < 48
    ensures exists whole :: IsCubeRootFraction(K[i], PRIMES[i], whole)
  {
    hide IsCubeRootFraction;
    Roots40();
    match i {
      case 40 => assert IsCubeRootFraction(K[40], PRIMES[40], 5);
      case 41 => assert IsCubeRootFraction(K[41], PRIMES[41], 5);
      case 42 => assert IsCubeRootFraction(K[42], PRIMES[42], 5);
      case 43 => assert IsCubeRootFraction(K[43], PRIMES[43], 5);
      case 44 => assert IsCubeRootFraction(K[44], PRIMES[44], 5);
      case 45 => assert IsCubeRootFraction(K[45], PRIMES[45], 5);
      case 46 => assert IsCubeRootFraction(K[46], PRIMES[46], 5);
      case 47 => assert IsCubeRootFraction(K[47], PRIMES[47], 6);
    }
  }

  lemma Roots40()
    ensures IsCubeRootFraction(0xa2bfe8a1, 179, 5) && IsCubeRootFraction(0xa81a664b, 181, 5)
    ensures IsCubeRootFraction(0xc24b8b70, 191, 5) && IsCubeRootFraction(0xc76c51a3, 193, 5)
    ensures IsCubeRootFraction(0xd192e819, 197, 5) && IsCubeRootFraction(0xd6990624, 199, 5)
    ensures IsCubeRootFraction(0xf40e3585, 211, 5) && IsCubeRootFraction(0x106aa070, 223, 6)
  {
  }

  lemma Constants48(i: nat)
    requires 48 <= i < 56
    ensures exists whole :: IsCubeRootFraction(K[i], PRIMES[i], whole)
  {
    hide IsCubeRootFraction;
    Roots48();
    match i {
      case 48 => assert IsCubeRootFraction(K[48], PRIMES[48], 6);
      case 49 => assert IsCubeRootFraction(K[49], PRIMES[49], 6);
      case 50 => assert IsCubeRootFraction(K[50], PRIMES[50], 6);
      case 51 => assert IsCubeRootFraction(K[51], PRIMES[51], 6);
      case 52 => assert IsCubeRootFraction(K[52], PRIMES[52], 6);
      case 53 => assert IsCubeRootFraction(K[53], PRIMES[53], 6);
      case 54 => assert IsCubeRootFraction(K[54], PRIMES[54], 6);
      case 55 => assert IsCubeRootFraction(K[55], PRIMES[55], 6);
    }
  }

  lemma Roots48()
    ensures IsCubeRootFraction(0x19a4c116, 227, 6) && IsCubeRootFraction(0x1e376c08, 229, 6)
    ensures IsCubeRootFraction(0x2748774c, 233, 6) && IsCubeRootFraction(0x34b0bcb5, 239, 6)
    ensures IsCubeRootFraction(0x391c0cb3, 241, 6) && IsCubeRootFraction(0x4ed8aa4a, 251, 6)
    ensures IsCubeRootFraction(0x5b9cca4f, 257, 6) && IsCubeRootFraction(0x682e6ff3, 263, 6)
  {
  }

  lemma Constants56(i: nat)
    requires 56 <= i < 64
    ensures exists whole :: IsCubeRootFraction(K[i], PRIMES[i], whole)
  {
    hide IsCubeRootFraction;
    Roots56();
    match i {
      case 56 => assert IsCubeRootFraction(K[56], PRIMES[56], 6);
      case 57 => assert IsCubeRootFraction(K[57], PRIMES[57], 6);
      case 58 => assert IsCubeRootFraction(K[58], PRIMES[58], 6);
      case 59 => assert IsCubeRootFraction(K[59], PRIMES[59], 6);
      case 60 => assert IsCubeRootFraction(K[60], PRIMES[60], 6);
      case 61 => assert IsCubeRootFraction(K[61], PRIMES[61], 6);
      case 62 => assert IsCubeRootFraction(K[62], PRIMES[62], 6);
      case 63 => assert IsCubeRootFraction(K[63], PRIMES[63], 6);
    }
  }

  lemma Roots56()
    ensures IsCubeRootFraction(0x748f82ee, 269, 6) && IsCubeRootFraction(0x78a5636f, 271, 6)
    ensures IsCubeRootFraction(0x84c87814, 277, 6) && IsCubeRootFraction(0x8cc70208, 281, 6)
    ensures IsCubeRootFraction(0x90befffa, 283, 6) && IsCubeRootFraction(0xa4506ceb, 293, 6)
    ensures IsCubeRootFraction(0xbef9a3f7, 307, 6) && IsCubeRootFraction(0xc67178f2, 311, 6)
  {
  }

  /** The initial value is made of the fractions of the square roots of the first eight. */
  lemma InitialValues(i: nat)
    requires i < 8
    ensures exists whole :: IsSquareRootFraction(INITIAL[i], PRIMES[i], whole)
  {
    hide IsSquareRootFraction;
    SquareRoots();
    match i {
      case 0 => assert IsSquareRootFraction(INITIAL[0], PRIMES[0], 1);
      case 1 => assert IsSquareRootFraction(INITIAL[1], PRIMES[1], 1);
      case 2 => assert IsSquareRootFraction(INITIAL[2], PRIMES[2], 2);
      case 3 => assert IsSquareRootFraction(INITIAL[3], PRIMES[3], 2);
      case 4 => assert IsSquareRootFraction(INITIAL[4], PRIMES[4], 3);
      case 5 => assert IsSquareRootFraction(INITIAL[5], PRIMES[5], 3);
      case 6 => assert IsSquareRootFraction(INITIAL[6], PRIMES[6], 4);
      case 7 => assert IsSquareRootFraction(INITIAL[7], PRIMES[7], 4);
    }
  }

  lemma SquareRoots()
    ensures IsSquareRootFraction(0x6A09E667, 2, 1) && IsSquareRootFraction(0xBB67AE85, 3, 1)
    ensures IsSquareRootFraction(0x3C6EF372, 5, 2) && IsSquareRootFraction(0xA54FF53A, 7, 2)
    ensures IsSquareRootFraction(0x510E527F, 11, 3) && IsSquareRootFraction(0x9B05688C, 13, 3)
    ensures IsSquareRootFraction(0x1F83D9AB, 17, 4) && IsSquareRootFraction(0x5BE0CD19, 19, 4)
  {
  }
}
