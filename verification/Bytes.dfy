/** Bytes and the arithmetic helpers that several components share. */
module Bytes {

  /** An `unsigned char`. */
  type byte = x: int | 0 <= x < 256

  function Min(a: int, b: int): int {
    if a < b then a else b
  }

  function Pow2(k: nat): (p: nat)
    ensures p >= 1
  {
    if k == 0 then 1 else 2 * Pow2(k - 1)
  }

  /** memcpy into `dst` at offset `at`. */
  method MemCopy(dst: array<byte>, at: nat, src: seq<byte>)
    requires at + |src| <= dst.Length
    modifies dst
    ensures dst[..] == old(dst[..at]) + src + old(dst[at + |src|..])
  {
    forall i | 0 <= i < |src| {
      dst[at + i] := src[i];
    }
  }

  /** memcpy behind the first `len` bytes of `dst`; the bytes now filled are `dst[..end]`. */
  method Append(dst: array<byte>, len: nat, src: seq<byte>) returns (end: nat)
    requires len + |src| <= dst.Length
    modifies dst
    ensures end == len + |src|
    ensures dst[..end] == old(dst[..len]) + src
  {
    MemCopy(dst, len, src);
    end := len + |src|;
  }

  /** The decimal digits of a number, as `%d` writes it. */
  function Decimal(i: nat): (d: seq<byte>)
    ensures d != [] && forall k :: 0 <= k < |d| ==> 48 <= d[k] <= 57
    ensures (i < 10 ==> |d| == 1) && (i < 100 ==> |d| <= 2)
  {
    if i < 10 then [48 + i] else Decimal(i / 10) + [48 + i % 10]
  }

  /** The number that digits stand for, the most significant one first. */
  function DecimalValue(d: seq<byte>): int
    decreases |d|
  {
    if d == [] then 0 else 10 * DecimalValue(d[..|d| - 1]) + (d[|d| - 1] as int - 48)
  }

  /** The digits stand for the number, without a zero in front. */
  lemma {:induction false} DecimalReads(i: nat)
    ensures DecimalValue(Decimal(i)) == i
    ensures i > 0 ==> Decimal(i)[0] != 48
    decreases i
  {
    var d := Decimal(i);
    if i < 10 {
      assert d[..0] == [];
    } else {
      DecimalReads(i / 10);
      assert d[..|d| - 1] == Decimal(i / 10);
    }
  }
}

/** The numbers below a bound, as a set. */
module Ranges {
  predicate IsBelow(i: int, n: int) {
    0 <= i < n
  }

  function Below(n: int): set<int> {
    set i: int | 0 <= i < n && IsBelow(i, n)
  }

  lemma {:induction false} BelowCount(n: nat)
    ensures |Below(n)| == n
  {
    if n > 0 {
      BelowCount(n - 1);
      assert Below(n) == Below(n - 1) + {n - 1};
    }
  }

  lemma {:induction false} AtMost(s: set<int>, n: nat)
    requires forall x :: x in s ==> 0 <= x < n
    ensures |s| <= n
  {
    if n > 0 {
      var rest := s - {n - 1};
      AtMost(rest, n - 1);
      assert s == rest || s == rest + {n - 1};
    } else {
      assert forall x :: x !in s;
    }
  }
}
