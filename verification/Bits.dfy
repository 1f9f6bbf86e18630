/** Unsigned words as numbers: shifts are divisions, the logical operations go bit by bit. */
module Bits {
  import opened Bytes
  import opened Division

  function Xor(a: nat, b: nat): nat
    decreases a + b
  {
    if a == 0 then b
    else if b == 0 then a
    else (if a % 2 != b % 2 then 1 else 0) + 2 * Xor(a / 2, b / 2)
  }

  function ShiftRight(x: nat, k: nat): nat
    decreases k
  {
    if k == 0 then x else ShiftRight(x / 2, k - 1)
  }

  lemma XorHalf(a: nat, b: nat)
    ensures Xor(a, b) / 2 == Xor(a / 2, b / 2)
    ensures Xor(a, b) % 2 == if a % 2 != b % 2 then 1 else 0
  {
  }

  lemma {:induction false} XorCancel(a: nat, b: nat, c: nat)
    ensures Xor(Xor(a, b), Xor(b, c)) == Xor(a, c)
    decreases a + b + c
  {
    if a + b + c > 0 {
      XorCancel(a / 2, b / 2, c / 2);
      XorHalf(a, b);
      XorHalf(b, c);
      XorHalf(a, c);
      XorHalf(Xor(a, b), Xor(b, c));
    }
  }

  lemma {:induction false} ShiftXor(a: nat, b: nat, k: nat)
    ensures ShiftRight(Xor(a, b), k) == Xor(ShiftRight(a, k), ShiftRight(b, k))
    decreases k
  {
    if k > 0 {
      XorHalf(a, b);
      ShiftXor(a / 2, b / 2, k - 1);
    }
  }

  lemma {:induction false} ShiftAdd(x: nat, j: nat, k: nat)
    ensures ShiftRight(ShiftRight(x, j), k) == ShiftRight(x, j + k)
    decreases j
  {
    if j > 0 { ShiftAdd(x / 2, j - 1, k); }
  }

  lemma {:induction false} ShiftZero(x: nat, k: nat)
    ensures ShiftRight(x, k) == 0 <==> x < Pow2(k)
    decreases k
  {
    if k > 0 { ShiftZero(x / 2, k - 1); }
  }

  lemma {:induction false} ShiftOfZero(k: nat)
    ensures ShiftRight(0, k) == 0
    decreases k
  {
    if k > 0 { ShiftOfZero(k - 1); }
  }

  lemma ShiftBeyond(x: nat, w: nat, k: nat)
    requires x < Pow2(w)
    ensures ShiftRight(x, w + k) == 0
  {
    ShiftZero(x, w);
    ShiftAdd(x, w, k);
    ShiftOfZero(k);
  }

  lemma {:induction false} ShiftIsDivision(x: nat, k: nat)
    ensures ShiftRight(x, k) == x / Pow2(k)
    decreases k
  {
    if k > 0 {
      ShiftIsDivision(x / 2, k - 1);
      var p, h := Pow2(k - 1), x / 2;
      DivModOf(h, p);
      assert x == (2 * p) * (h / p) + (2 * (h % p) + x % 2) by { Distribute(p, h / p); }
      DivOf(x, 2 * p, h / p, 2 * (h % p) + x % 2);
    }
  }

  lemma {:induction false} Pow2Add(a: nat, b: nat)
    ensures Pow2(a + b) == Pow2(a) * Pow2(b)
    decreases a
  {
    if a > 0 {
      Pow2Add(a - 1, b);
      Distribute(Pow2(a - 1), Pow2(b));
    }
  }

  /** The two shifted parts of the source have no bit in common, so `|` is addition. */
  function RotateRight(x: int, width: nat, shift: nat): int
    requires shift <= width
  {
    x / Pow2(shift) + (x % Pow2(shift)) * Pow2(width - shift)
  }

  /** Rotating right by `shift` and then by the rest of the width gives the word back. */
  lemma RotateUndo(x: int, width: nat, shift: nat)
    requires shift <= width && 0 <= x < Pow2(width)
    ensures 0 <= RotateRight(x, width, shift) < Pow2(width)
    ensures RotateRight(RotateRight(x, width, shift), width, width - shift) == x
  {
    Pow2Add(shift, width - shift);
    ExchangeTwice(x, Pow2(shift), Pow2(width - shift));
  }

  /** Bit `i` of a number, counted from the low end. */
  function Bit(x: nat, i: nat): (b: nat)
    ensures b <= 1
    decreases i
  {
    if i == 0 then x % 2 else Bit(x / 2, i - 1)
  }

  lemma {:induction false} BitOfShift(x: nat, k: nat, i: nat)
    ensures Bit(ShiftRight(x, k), i) == Bit(x, k + i)
    decreases k
  {
    if k > 0 { BitOfShift(x / 2, k - 1, i); }
  }

  lemma {:induction false} BitBeyond(x: nat, width: nat, i: nat)
    requires x < Pow2(width) && i >= width
    ensures Bit(x, i) == 0
    decreases i
  {
    if i > 0 { BitBeyond(x / 2, if width > 0 then width - 1 else 0, i - 1); }
  }

  lemma {:induction false} XorBit(a: nat, b: nat, i: nat)
    ensures Bit(Xor(a, b), i) == (Bit(a, i) + Bit(b, i)) % 2
    decreases i
  {
    XorHalf(a, b);
    if i > 0 { XorBit(a / 2, b / 2, i - 1); }
  }

  /** Two numbers side by side: the low one has `k` bits. */
  lemma {:induction false} BitOfSum(low: nat, high: nat, k: nat, i: nat)
    requires low < Pow2(k)
    ensures high * Pow2(k) >= 0
    ensures Bit(low + high * Pow2(k), i) == if i < k then Bit(low, i) else Bit(high, i - k)
    decreases k
  {
    if k > 0 {
      var p := Pow2(k - 1);
      NonNegative(high, p);
      Distribute(high, p);
      DoubleOf(high, p);
      var x := low + 2 * (high * p);
      assert x % 2 == low % 2 && x / 2 == low / 2 + high * p;
      if i > 0 { BitOfSum(low / 2, high, k - 1, i - 1); }
    }
  }

  lemma DoubleOf(high: nat, p: nat)
    ensures high * (2 * p) == 2 * (high * p)
  {
  }

  /** A rotation to the right: bit `i` of the result is bit `i + shift` of the word, going round. */
  lemma RotateBit(x: nat, width: nat, shift: nat, i: nat)
    requires shift <= width && x < Pow2(width) && i < width
    ensures RotateRight(x, width, shift) >= 0
    ensures Bit(RotateRight(x, width, shift), i) == Bit(x, if i + shift < width then i + shift else i + shift - width)
  {
    hide Bit, Pow2;
    var p, q := Pow2(shift), Pow2(width - shift);
    var high, low: nat := x / p, x % p;
    Parts(x, p);
    Pow2Add(shift, width - shift);
    Quotient(x, p, q);
    BitOfSum(low, high, shift, if i + shift < width then i + shift else i + shift - width);
    BitOfSum(high, low, width - shift, i);
  }

  lemma Parts(x: nat, p: nat)
    requires p > 0
    ensures x == x % p + x / p * p && x % p < p
  {
    DivModOf(x, p);
    Commute(x / p, p);
  }

  /** Going round a word of 32 bits. */
  lemma Around(i: nat, n: nat)
    requires i < 32 && n <= 32
    ensures (i + n) % 32 == if i + n < 32 then i + n else i + n - 32
  {
  }

  lemma Quotient(x: nat, p: nat, q: nat)
    requires p > 0 && x < p * q
    ensures x / p < q
  {
    DivModOf(x, p);
    if x / p >= q {
      NonNegative(p, x / p - q);
      Minus(p, x / p, q);
    }
  }

  // ----- and, or, complement

  function And(a: nat, b: nat): nat
    decreases a + b
  {
    if a == 0 || b == 0 then 0
    else (if a % 2 == 1 && b % 2 == 1 then 1 else 0) + 2 * And(a / 2, b / 2)
  }

  function Or(a: nat, b: nat): nat
    decreases a + b
  {
    if a == 0 then b
    else if b == 0 then a
    else (if a % 2 == 1 || b % 2 == 1 then 1 else 0) + 2 * Or(a / 2, b / 2)
  }

  /** The complement in a word of `width` bits. */
  function Not(a: nat, width: nat): (n: nat)
    ensures n < Pow2(width)
    decreases width
  {
    if width == 0 then 0 else 1 - a % 2 + 2 * Not(a / 2, width - 1)
  }

  lemma AndHalf(a: nat, b: nat)
    ensures And(a, b) / 2 == And(a / 2, b / 2)
    ensures And(a, b) % 2 == if a % 2 == 1 && b % 2 == 1 then 1 else 0
  {
  }

  lemma OrHalf(a: nat, b: nat)
    ensures Or(a, b) / 2 == Or(a / 2, b / 2)
    ensures Or(a, b) % 2 == if a % 2 == 1 || b % 2 == 1 then 1 else 0
  {
  }
}
