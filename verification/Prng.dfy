/** The xorshift of PCG-XSH-RR. */
module PrngOutput {
  import opened Bytes
  import opened Bits

  type uint64 = x: int | 0 <= x < 0x1_0000_0000_0000_0000

  /** `x ^ (x >> k)`. */
  function Mixed(x: nat, k: nat): nat {
    Xor(x, ShiftRight(x, k))
  }

  /** Mixing twice is mixing once over twice the distance. */
  lemma MixedTwice(x: nat, k: nat)
    ensures Mixed(Mixed(x, k), k) == Mixed(x, k + k)
  {
    var s := ShiftRight(x, k);
    ShiftXor(x, s, k);
    ShiftAdd(x, k, k);
    XorCancel(x, s, ShiftRight(s, k));
  }

  /** Mixing keeps the bits from `w` on that mixing cannot reach. */
  lemma MixedShifted(x: nat, k: nat, w: nat)
    ensures ShiftRight(Mixed(x, k), w) == Xor(ShiftRight(x, w), ShiftRight(x, k + w))
  {
    ShiftXor(x, ShiftRight(x, k), w);
    ShiftAdd(x, k, w);
  }

  lemma MixedBound(x: nat, k: nat, w: nat)
    requires x < Pow2(w)
    ensures Mixed(x, k) < Pow2(w)
  {
    MixedShifted(x, k, w);
    ShiftBeyond(x, w, 0);
    ShiftBeyond(x, w, k);
    ShiftZero(Mixed(x, k), w);
  }

  /** Mixing four times over a quarter of the width changes nothing. */
  lemma MixedFourTimes(x: nat, k: nat, w: nat)
    requires x < Pow2(w) && w <= 4 * k
    ensures Mixed(Mixed(Mixed(Mixed(x, k), k), k), k) == x
  {
    MixedTwice(x, k);
    MixedTwice(Mixed(x, 2 * k), k);
    MixedTwice(x, 2 * k);
    ShiftBeyond(x, w, 4 * k - w);
  }

  function Unmixed(y: nat, k: nat): nat {
    Mixed(Mixed(Mixed(y, k), k), k)
  }

  lemma TopBitsKept(x: nat, k: nat, top: nat, w: nat)
    requires x < Pow2(w) && w <= k + top
    ensures ShiftRight(Mixed(x, k), top) == ShiftRight(x, top)
  {
    MixedShifted(x, k, top);
    ShiftBeyond(x, w, k + top - w);
  }

}

module Prng {
  import opened Bytes
  import opened Ranges
  import opened Division
  import opened Bits
  import opened PrngPeriod
  import opened PrngOutput

  lemma Pow2Of64()
    ensures Pow2(32) == 0x1_0000_0000
    ensures Pow2(59) == 0x800_0000_0000_0000
    ensures Pow2(64) == 0x1_0000_0000_0000_0000
  {
    assert Pow2(8) == 0x100;
    assert Pow2(16) == 0x1_0000;
    assert Pow2(24) == 0x100_0000;
    assert Pow2(32) == 0x1_0000_0000;
    assert Pow2(40) == 0x100_0000_0000;
    assert Pow2(48) == 0x1_0000_0000_0000;
    assert Pow2(56) == 0x100_0000_0000_0000;
  }

  lemma WordSize() returns (k: nat)
    ensures k == 64 && Pow2(k) == 0x1_0000_0000_0000_0000
  {
    Pow2Of64();
    k := 64;
  }

  // ----- the state

  function Step(x: uint64, increment: uint64): uint64 {
    (x * 6364136223846793005 + increment) % 0x1_0000_0000_0000_0000
  }

  /** The state after `n` calls of `RandomBits`. */
  function Steps(x: uint64, increment: uint64, n: nat): uint64 {
    if n == 0 then x else Step(Steps(x, increment, n - 1), increment)
  }

  lemma ReducedStep(u: int, c: int, x: uint64)
    requires u % 0x1_0000_0000_0000_0000 == x
    ensures (6364136223846793005 * u + c) % 0x1_0000_0000_0000_0000
            == (x * 6364136223846793005 + c) % 0x1_0000_0000_0000_0000
  {
    var q := u / 0x1_0000_0000_0000_0000;
    assert u == 0x1_0000_0000_0000_0000 * q + x;
    assert 6364136223846793005 * u + c
           == 0x1_0000_0000_0000_0000 * (6364136223846793005 * q) + (x * 6364136223846793005 + c);
    ModPlus(0x1_0000_0000_0000_0000, 6364136223846793005 * q, x * 6364136223846793005 + c);
  }

  lemma {:induction false} StepsReduce(x: uint64, c: uint64, n: nat)
    ensures Steps(x, c, n) == Unreduced(6364136223846793005, c, x, n) % 0x1_0000_0000_0000_0000
    decreases n
  {
    if n > 0 {
      StepsReduce(x, c, n - 1);
      ReducedStep(Unreduced(6364136223846793005, c, x, n - 1), c, Steps(x, c, n - 1));
    }
  }

  lemma BackAt(s: uint64, u: int, x: uint64, n: nat)
    requires s == u % 0x1_0000_0000_0000_0000
    requires (u - x) % 0x1_0000_0000_0000_0000 == 0 <==> n % 0x1_0000_0000_0000_0000 == 0
    ensures s == x <==> n % 0x1_0000_0000_0000_0000 == 0
  {
  }

  lemma UnreducedBack(x: uint64, c: uint64, n: nat)
    requires c % 2 == 1
    ensures (Unreduced(6364136223846793005, c, x, n) - x) % 0x1_0000_0000_0000_0000 == 0
            <==> n % 0x1_0000_0000_0000_0000 == 0
  {
    var k := WordSize();
    ReturnsModulo(6364136223846793005, c, x, k, n);
  }

  /**
   * With an odd increment, every state comes back exactly after the multiples of 2^64 steps:
   * the period is 2^64 from every state.
   */
  lemma FullPeriod(x: uint64, c: uint64, n: nat)
    requires c % 2 == 1
    ensures Steps(x, c, n) == x <==> n % 0x1_0000_0000_0000_0000 == 0
  {
    StepsReduce(x, c, n);
    UnreducedBack(x, c, n);
    BackAt(Steps(x, c, n), Unreduced(6364136223846793005, c, x, n), x, n);
  }

  lemma NotBackYet(x: uint64, c: uint64, n: nat)
    requires c % 2 == 1 && 0 < n < 0x1_0000_0000_0000_0000
    ensures Steps(x, c, n) != x
  {
    assert n % 0x1_0000_0000_0000_0000 == n;
    FullPeriod(x, c, n);
  }

  /** Different numbers of steps below 2^64 lead to different states. */
  lemma NoEarlyRepeat(x: uint64, c: uint64, i: nat, j: nat)
    requires c % 2 == 1 && i < j < 0x1_0000_0000_0000_0000
    ensures Steps(x, c, i) != Steps(x, c, j)
  {
    StepsAdd(x, c, i, j - i);
    NotBackYet(Steps(x, c, i), c, j - i);
  }

  lemma {:induction false} StepsAdd(x: uint64, c: uint64, i: nat, n: nat)
    ensures Steps(x, c, i + n) == Steps(Steps(x, c, i), c, n)
    decreases n
  {
    if n > 0 { StepsAdd(x, c, i, n - 1); }
  }

  /** The states met in the first `n` steps. */
  ghost function Visited(x: uint64, c: uint64, n: nat): set<int> {
    set i | i in Below(n) :: Steps(x, c, i)
  }

  lemma {:induction false} VisitedCount(x: uint64, c: uint64, n: nat)
    requires c % 2 == 1 && n <= 0x1_0000_0000_0000_0000
    ensures |Visited(x, c, n)| == n
    decreases n
  {
    if n > 0 {
      VisitedCount(x, c, n - 1);
      var last := Steps(x, c, n - 1);
      assert Below(n) == Below(n - 1) + {n - 1};
      assert Visited(x, c, n) == Visited(x, c, n - 1) + {last};
      if last in Visited(x, c, n - 1) {
        var i :| i in Below(n - 1) && Steps(x, c, i) == last;
        NoEarlyRepeat(x, c, i, n - 1);
      }
    }
  }

  lemma SubsetOfSameSize(a: set<int>, b: set<int>)
    requires a <= b && |a| == |b|
    ensures a == b
  {
    assert b == a + (b - a);
    assert |b| == |a| + |b - a|;
  }

  /** One period visits every 64-bit state, so the step is a permutation of the states. */
  lemma VisitsEveryState(x: uint64, c: uint64, y: uint64)
    requires c % 2 == 1
    ensures exists n: nat :: n < 0x1_0000_0000_0000_0000 && Steps(x, c, n) == y
  {
    var n: nat := 0x1_0000_0000_0000_0000;
    VisitedCount(x, c, n);
    BelowCount(n);
    SubsetOfSameSize(Visited(x, c, n), Below(n));
    assert y in Below(n);
    var i :| i in Below(n) && Steps(x, c, i) == y;
  }

  // ----- the output

  function RotateRight32(x: int, shift: nat): int
    requires shift < 32
  {
    RotateRight(x, 32, shift)
  }

  /** The 32 bits returned for a state: xorshift, then a rotation by the top five bits. */
  function OutputOf(x: uint64): int {
    RotateRight32(Mixed(x, 18) / 0x800_0000 % 0x1_0000_0000, x / 0x800_0000_0000_0000)
  }

  lemma MiddleBits(y: nat, i: nat)
    requires i < 32
    ensures Bit(y / 0x800_0000 % 0x1_0000_0000, i) == Bit(y, 27 + i)
  {
    Pow2Of64();
    Pow2Of27();
    hide Bit, Pow2;
    var q: nat := y / 0x800_0000;
    ShiftIsDivision(y, 27);
    BitOfShift(y, 27, i);
    Parts(q, 0x1_0000_0000);
    BitOfSum(q % 0x1_0000_0000, q / 0x1_0000_0000, 32, i);
  }

  lemma Pow2Of27()
    ensures Pow2(27) == 0x800_0000
  {
    Pow2Of64();
    Pow2Add(27, 32);
  }

  /**
   * The output bit by bit: bit `i` is bit `j` of the state, xor the one 18 places above, where
   * `j` goes round the bits 27 to 58, starting at the number that the top five bits give.
   */
  lemma OutputBits(x: uint64, i: nat)
    requires i < 32
    ensures 0 <= OutputOf(x) < 0x1_0000_0000
    ensures var j := 27 + (i + x / 0x800_0000_0000_0000) % 32;
            Bit(OutputOf(x), i) == (Bit(x, j) + Bit(x, j + 18)) % 2
  {
    hide Mixed, Bit, RotateRight, Pow2;
    var count := x / 0x800_0000_0000_0000;
    var w := Mixed(x, 18) / 0x800_0000 % 0x1_0000_0000;
    Pow2Of64();
    RotateUndo(w, 32, count);
    RotateBit(w, 32, count, i);
    Around(i, count);
    MiddleBits(Mixed(x, 18), (i + count) % 32);
    MixedBit(x, 18, 27 + (i + count) % 32);
  }

  lemma MixedBit(x: nat, k: nat, i: nat)
    ensures Bit(Mixed(x, k), i) == (Bit(x, i) + Bit(x, i + k)) % 2
  {
    XorBit(x, ShiftRight(x, k), i);
    BitOfShift(x, k, i);
  }

  /**
   * Which output a step gives, fixed by three numbers: the rotation count, the output word
   * and 27 low bits.
   */
  ghost predicate Gives(s: uint64, count: nat, word: int, low: nat) {
    s / 0x800_0000_0000_0000 == count && OutputOf(s) == word && Mixed(s, 18) % 0x800_0000 == low
  }

  lemma TopBits(s: uint64)
    ensures Mixed(s, 18) < 0x1_0000_0000_0000_0000
    ensures Mixed(s, 18) / 0x800_0000_0000_0000 == s / 0x800_0000_0000_0000
  {
    Pow2Of64();
    MixedBound(s, 18, 64);
    TopBitsKept(s, 18, 59, 64);
    ShiftIsDivision(s, 59);
    ShiftIsDivision(Mixed(s, 18), 59);
  }

  /** The state that gives the triple. */
  lemma StateFor(count: nat, word: int, low: nat) returns (s: uint64)
    requires count < 32 && 0 <= word < 0x1_0000_0000 && low < 0x800_0000
    ensures Gives(s, count, word, low)
  {
    hide Mixed;
    Pow2Of64();
    var w := RotateRight(word, 32, 32 - count);
    RotateUndo(word, 32, 32 - count);
    var y: uint64 := count * 0x800_0000_0000_0000 + w * 0x800_0000 + low;
    MixedBound(y, 18, 64);
    MixedBound(Mixed(y, 18), 18, 64);
    MixedBound(Mixed(Mixed(y, 18), 18), 18, 64);
    s := Unmixed(y, 18);
    MixedFourTimes(y, 18, 64);
    assert Mixed(s, 18) == y;
    TopBits(s);
    Fields(count, w, low);
  }

  lemma Fields(count: nat, w: nat, low: nat)
    requires count < 32 && w < 0x1_0000_0000 && low < 0x800_0000
    ensures var y := count * 0x800_0000_0000_0000 + w * 0x800_0000 + low;
            && y / 0x800_0000_0000_0000 == count
            && y / 0x800_0000 % 0x1_0000_0000 == w
            && y % 0x800_0000 == low
  {
  }

  /** Two states with the same count, output word and low bits are the same state. */
  lemma OutputDetermines(s: uint64, t: uint64, count: nat, word: int, low: nat)
    requires Gives(s, count, word, low) && Gives(t, count, word, low)
    ensures s == t
  {
    TopBits(s);
    TopBits(t);
    Pow2Of64();
    var y, z := Mixed(s, 18), Mixed(t, 18);
    RotateUndo(y / 0x800_0000 % 0x1_0000_0000, 32, count);
    RotateUndo(z / 0x800_0000 % 0x1_0000_0000, 32, count);
    SameFields(y, z);
    MixedFourTimes(s, 18, 64);
    MixedFourTimes(t, 18, 64);
  }

  lemma SameFields(y: uint64, z: uint64)
    requires y / 0x800_0000_0000_0000 == z / 0x800_0000_0000_0000
    requires y / 0x800_0000 % 0x1_0000_0000 == z / 0x800_0000 % 0x1_0000_0000
    requires y % 0x800_0000 == z % 0x800_0000
    ensures y == z
  {
  }

  /** In one period each triple comes up exactly once. */
  lemma EachOutputOnce(x: uint64, c: uint64, count: nat, word: int, low: nat)
    requires c % 2 == 1
    requires count < 32 && 0 <= word < 0x1_0000_0000 && low < 0x800_0000
    ensures exists n: nat :: n < 0x1_0000_0000_0000_0000 && Gives(Steps(x, c, n), count, word, low)
    ensures forall m: nat, n: nat ::
              m < n < 0x1_0000_0000_0000_0000 && Gives(Steps(x, c, m), count, word, low) ==>
                !Gives(Steps(x, c, n), count, word, low)
  {
    var s := StateFor(count, word, low);
    VisitsEveryState(x, c, s);
    forall m: nat, n: nat |
      m < n < 0x1_0000_0000_0000_0000 && Gives(Steps(x, c, m), count, word, low)
      ensures !Gives(Steps(x, c, n), count, word, low)
    {
      NoEarlyRepeat(x, c, m, n);
      if Gives(Steps(x, c, n), count, word, low) {
        OutputDetermines(Steps(x, c, m), Steps(x, c, n), count, word, low);
      }
    }
  }

  /** Rotation count and low bits in one number: which of its 2^32 occurrences an output is. */
  function Occurrence(s: uint64): nat {
    s / 0x800_0000_0000_0000 * 0x800_0000 + Mixed(s, 18) % 0x800_0000
  }

  lemma OccurrenceParts(s: uint64, count: nat, low: nat)
    requires count < 32 && low < 0x800_0000
    ensures Occurrence(s) < 0x1_0000_0000
    ensures Occurrence(s) == count * 0x800_0000 + low <==>
      s / 0x800_0000_0000_0000 == count && Mixed(s, 18) % 0x800_0000 == low
  {
    hide Mixed;
  }

  /** When, in the first `n` steps, the word is output. */
  ghost function TimesOf(x: uint64, c: uint64, word: int, n: nat): set<int> {
    set i | i in Below(n) && OutputOf(Steps(x, c, i)) == word
  }

  lemma {:induction false} SameSize(s: set<int>, t: set<int>, f: int -> int)
    requires forall i :: i in s ==> f(i) in t
    requires forall i, j :: i in s && j in s && f(i) == f(j) ==> i == j
    requires forall k :: k in t ==> exists i :: i in s && f(i) == k
    ensures |s| == |t|
    decreases |s|
  {
    if i :| i in s {
      SameSize(s - {i}, t - {f(i)}, f);
      assert t == t - {f(i)} + {f(i)};
    } else {
      assert forall j :: j !in s;
      assert forall k :: k !in t;
    }
  }

  /** Two outputs of the word in one period are different occurrences. */
  lemma OccursOnce(x: uint64, c: uint64, word: int, i: nat, j: nat)
    requires c % 2 == 1 && i < 0x1_0000_0000_0000_0000 && j < 0x1_0000_0000_0000_0000
    requires OutputOf(Steps(x, c, i)) == word && OutputOf(Steps(x, c, j)) == word
    requires Occurrence(Steps(x, c, i)) == Occurrence(Steps(x, c, j))
    ensures i == j
  {
    hide Occurrence, OutputOf, Mixed;
    var s, t := Steps(x, c, i), Steps(x, c, j);
    var count, low := s / 0x800_0000_0000_0000, Mixed(s, 18) % 0x800_0000;
    OccurrenceParts(s, count, low);
    OccurrenceParts(t, count, low);
    assert Gives(s, count, word, low) && Gives(t, count, word, low);
    OutputDetermines(s, t, count, word, low);
    if i < j { NoEarlyRepeat(x, c, i, j); }
    if j < i { NoEarlyRepeat(x, c, j, i); }
  }

  /** Every occurrence comes up in one period. */
  lemma Occurs(x: uint64, c: uint64, word: int, k: nat) returns (i: nat)
    requires c % 2 == 1 && 0 <= word < 0x1_0000_0000 && k < 0x1_0000_0000
    ensures i < 0x1_0000_0000_0000_0000 && OutputOf(Steps(x, c, i)) == word && Occurrence(Steps(x, c, i)) == k
  {
    hide Occurrence, OutputOf, Mixed;
    var count, low := k / 0x800_0000, k % 0x800_0000;
    EachOutputOnce(x, c, count, word, low);
    i :| i < 0x1_0000_0000_0000_0000 && Gives(Steps(x, c, i), count, word, low);
    OccurrenceParts(Steps(x, c, i), count, low);
  }

  /** In one period each 32-bit word is output exactly 2^32 times. */
  lemma EachWordEquallyOften(x: uint64, c: uint64, word: int, n: nat)
    requires c % 2 == 1 && 0 <= word < 0x1_0000_0000 && n == 0x1_0000_0000_0000_0000
    ensures |TimesOf(x, c, word, n)| == 0x1_0000_0000
  {
    hide Occurrence, OutputOf, Steps;
    var all: nat := 0x1_0000_0000;
    var s, t := TimesOf(x, c, word, n), Below(all);
    var f := (i: int) => if i >= 0 then Occurrence(Steps(x, c, i)) else 0;
    forall i | i in s ensures f(i) in t {
      OccurrenceParts(Steps(x, c, i), 0, 0);
    }
    forall i, j | i in s && j in s && f(i) == f(j) ensures i == j {
      OccursOnce(x, c, word, i, j);
    }
    forall k | k in t ensures exists i :: i in s && f(i) == k {
      var i := Occurs(x, c, word, k);
      assert i in Below(n) && i in s && f(i) == k;
    }
    SameSize(s, t, f);
    BelowCount(all);
  }

  // ----- the description

  const NAME := "pcg-xsh-rr"

  function HexDigit(d: int): char
    requires 0 <= d < 16
  {
    "0123456789abcdef"[d]
  }

  /** The low hexadecimal digits of a number. */
  function Hex(n: nat, digits: nat): (h: string)
    ensures |h| == digits
  {
    if digits == 0 then "" else Hex(n / 16, digits - 1) + [HexDigit(n % 16)]
  }

  function Hex64(x: uint64): (h: string)
    ensures |h| == 16
  {
    Hex(x / 0x1_0000_0000, 8) + Hex(x % 0x1_0000_0000, 8)
  }

  /** `Description` of a seeded generator; with its terminator it fits into 64 bytes. */
  function DescriptionOf(seed0: uint64, seed1: uint64): (d: string)
    ensures |d| == 44
  {
    NAME + ":" + Hex64(seed0) + (":" + Hex64(seed1))
  }

  lemma Pow2By4(q: nat)
    requires q >= 4
    ensures Pow2(q) == 16 * Pow2(q - 4)
  {
    assert Pow2(q) == 2 * Pow2(q - 1);
    assert Pow2(q - 1) == 2 * Pow2(q - 2);
    assert Pow2(q - 2) == 2 * Pow2(q - 3);
  }

  lemma HexDigitInjective(a: int, b: int)
    requires 0 <= a < 16 && 0 <= b < 16 && HexDigit(a) == HexDigit(b)
    ensures a == b
  {
    var digits := "0123456789abcdef";
    assert forall i, j :: 0 <= i < j < 16 ==> digits[i] != digits[j];
  }

  lemma NextDigit(a: nat, p: nat)
    requires a < 16 * p
    ensures a / 16 < p && a == 16 * (a / 16) + a % 16
  {
  }

  lemma SameParts<T>(a: seq<T>, b: seq<T>, a': seq<T>, b': seq<T>)
    requires |a| == |a'| && a + b == a' + b'
    ensures a == a' && b == b'
  {
    assert a == (a + b)[..|a|] && a' == (a' + b')[..|a|];
    assert b == (a + b)[|a|..] && b' == (a' + b')[|a|..];
  }

  lemma {:induction false} HexInjective(a: nat, b: nat, k: nat)
    requires a < Pow2(4 * k) && b < Pow2(4 * k) && Hex(a, k) == Hex(b, k)
    ensures a == b
    decreases k
  {
    hide HexDigit;
    if k > 0 {
      Pow2By4(4 * k);
      NextDigit(a, Pow2(4 * k - 4));
      NextDigit(b, Pow2(4 * k - 4));
      SameParts(Hex(a / 16, k - 1), [HexDigit(a % 16)], Hex(b / 16, k - 1), [HexDigit(b % 16)]);
      HexInjective(a / 16, b / 16, k - 1);
      HexDigitInjective(a % 16, b % 16);
    }
  }

  /** The value of a hexadecimal digit in lower case. */
  function HexDigitValue(c: char): int {
    if '0' <= c <= '9' then c as int - '0' as int
    else if 'a' <= c <= 'f' then 10 + (c as int - 'a' as int)
    else -1
  }

  /** The number that hexadecimal digits stand for, the most significant one first. */
  function HexValue(h: string): int
    decreases |h|
  {
    if h == "" then 0 else 16 * HexValue(h[..|h| - 1]) + HexDigitValue(h[|h| - 1])
  }

  lemma {:induction false} HexReads(n: nat, k: nat)
    requires n < Pow2(4 * k)
    ensures HexValue(Hex(n, k)) == n
    decreases k
  {
    hide HexDigit, HexDigitValue;
    if k > 0 {
      Pow2By4(4 * k);
      NextDigit(n, Pow2(4 * k - 4));
      HexReads(n / 16, k - 1);
      DigitReads(n % 16);
      var h := Hex(n, k);
      assert h[..k - 1] == Hex(n / 16, k - 1);
    }
  }

  lemma DigitReads(d: int)
    requires 0 <= d < 16
    ensures HexDigitValue(HexDigit(d)) == d
  {
  }

  lemma {:induction false} HexJoined(a: string, b: string)
    ensures HexValue(a + b) == HexValue(a) * Pow2(4 * |b|) + HexValue(b)
    decreases |b|
  {
    hide HexDigitValue;
    if b == "" {
      assert a + b == a;
    } else {
      var front := b[..|b| - 1];
      assert (a + b)[..|a + b| - 1] == a + front;
      HexJoined(a, front);
      Pow2By4(4 * |b|);
      Regroup(HexValue(a), Pow2(4 * |front|));
    }
  }

  lemma Regroup(a: int, p: int)
    ensures 16 * (a * p) == a * (16 * p)
  {
  }

  lemma Hex64Reads(x: uint64, k: nat)
    requires k == 8
    ensures HexValue(Hex(x / 0x1_0000_0000, k) + Hex(x % 0x1_0000_0000, k)) == x
  {
    Pow2Of64();
    HexReads(x / 0x1_0000_0000, k);
    HexReads(x % 0x1_0000_0000, k);
    HexJoined(Hex(x / 0x1_0000_0000, k), Hex(x % 0x1_0000_0000, k));
  }

  lemma Hex64Value(x: uint64)
    ensures HexValue(Hex64(x)) == x
  {
    hide HexValue, Hex;
    Hex64Reads(x, 8);
  }

  /** The description is the name of the generator and the two seeds in hexadecimal digits, in this order. */
  lemma DescriptionReads(seed0: uint64, seed1: uint64)
    ensures var d := DescriptionOf(seed0, seed1);
            && d[..11] == "pcg-xsh-rr:" && HexValue(d[11..27]) == seed0
            && d[27] == ':' && HexValue(d[28..]) == seed1
  {
    hide Hex64, HexValue;
    Hex64Value(seed0);
    Hex64Value(seed1);
    var d := DescriptionOf(seed0, seed1);
    assert d[11..27] == Hex64(seed0) && d[28..] == Hex64(seed1);
  }

  lemma Hex64Injective(a: uint64, b: uint64)
    requires Hex64(a) == Hex64(b)
    ensures a == b
  {
    Hex64Parts(a, b, 8);
  }

  lemma Hex64Parts(a: uint64, b: uint64, k: nat)
    requires k == 8
    requires Hex(a / 0x1_0000_0000, k) + Hex(a % 0x1_0000_0000, k) == Hex(b / 0x1_0000_0000, k) + Hex(b % 0x1_0000_0000, k)
    ensures a == b
  {
    Pow2Of64();
    SameParts(Hex(a / 0x1_0000_0000, k), Hex(a % 0x1_0000_0000, k), Hex(b / 0x1_0000_0000, k), Hex(b % 0x1_0000_0000, k));
    HexInjective(a / 0x1_0000_0000, b / 0x1_0000_0000, k);
    HexInjective(a % 0x1_0000_0000, b % 0x1_0000_0000, k);
  }

  /** The description names the seed: no two seeds have the same. */
  lemma DescriptionDetermines(s0: uint64, s1: uint64, t0: uint64, t1: uint64)
    requires DescriptionOf(s0, s1) == DescriptionOf(t0, t1)
    ensures s0 == t0 && s1 == t1
  {
    hide Hex64;
    var name := NAME + ":";
    SameParts(name + Hex64(s0), ":" + Hex64(s1), name + Hex64(t0), ":" + Hex64(t1));
    SameParts(name, Hex64(s0), name, Hex64(t0));
    SameParts(":", Hex64(s1), ":", Hex64(t1));
    Hex64Injective(s0, t0);
    Hex64Injective(s1, t1);
  }

  // ----- the class

  class CPrng {
    var description: string
    var seeded: bool
    var state: uint64
    var increment: uint64

    /** A seeded generator has an odd increment. */
    predicate Valid()
      reads this
    {
      seeded ==> increment % 2 == 1
    }

    constructor ()
      ensures Valid() && !seeded
    {
      description, seeded, state, increment := "", false, 0, 0;
    }

    /** `Description`. */
    method Description() returns (d: string)
      ensures d == if seeded then description else NAME + ":unseeded"
    {
      if !seeded {
        return NAME + ":unseeded";
      }
      return description;
    }

    method Seed(seed0: uint64, seed1: uint64)
      modifies this
      ensures Valid() && seeded && description == DescriptionOf(seed0, seed1)
      ensures increment == 2 * seed1 % 0x1_0000_0000_0000_0000 + 1
      ensures state == Step((seed0 + increment) % 0x1_0000_0000_0000_0000, increment)
    {
      hide DescriptionOf, OutputOf;
      seeded := true;
      description := DescriptionOf(seed0, seed1);
      increment := 2 * seed1 % 0x1_0000_0000_0000_0000 + 1;
      state := (seed0 + increment) % 0x1_0000_0000_0000_0000;
      var _ := RandomBits();
    }

    method RandomBits() returns (bits: int)
      requires Valid() && seeded
      modifies this`state
      ensures Valid() && state == Step(old(state), increment)
      ensures bits == OutputOf(old(state))
    {
      var x := state;
      state := (x * 6364136223846793005 + increment) % 0x1_0000_0000_0000_0000;
      var count := x / 0x800_0000_0000_0000;
      var y := Xor(x, ShiftRight(x, 18));
      bits := RotateRight32(y / 0x800_0000 % 0x1_0000_0000, count);
    }
  }
}
