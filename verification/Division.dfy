/** Facts about products, quotients and remainders that the solver needs one at a time. */
module Division {

  lemma Distribute(p: int, d: int)
    ensures 2 * (p * d) == (2 * p) * d
  {
  }

  lemma DivModOf(h: int, p: int)
    requires p > 0
    ensures h == p * (h / p) + h % p && 0 <= h % p < p
  {
  }

  lemma Minus(m: int, d: int, d': int)
    ensures m * (d - d') == m * d - m * d'
  {
  }

  lemma AtLeast(m: int, e: int)
    requires m > 0 && e != 0
    ensures m * e >= m || m * e <= -m
  {
    if e > 0 {
      Minus(m, e, 1);
      NonNegative(m, e - 1);
    } else {
      Minus(m, -e, 1);
      NonNegative(m, -e - 1);
      Minus(m, 0, e);
    }
  }

  lemma NonNegative(x: nat, y: nat)
    ensures x * y >= 0
  {
  }

  lemma ModOf(x: int, m: int, d: int, r: int)
    requires m > 0 && 0 <= r < m && x == m * d + r
    ensures x % m == r
  {
    DivModOf(x, m);
    var e := d - x / m;
    assert m * e == x % m - r by { Minus(m, d, x / m); }
    if e != 0 { AtLeast(m, e); }
  }

  lemma DivOf(x: int, m: int, d: int, r: int)
    requires m > 0 && 0 <= r < m && x == m * d + r
    ensures x / m == d
  {
    DivModOf(x, m);
    ModOf(x, m, d, r);
    assert m * (d - x / m) == 0 by { Minus(m, d, x / m); }
    if d != x / m { AtLeast(m, d - x / m); }
  }

  lemma ModPlus(m: int, k: int, r: int)
    requires m > 0
    ensures (m * k + r) % m == r % m
  {
    DivModOf(r, m);
    assert m * (k + r / m) == m * k + m * (r / m) by { Minus(m, k, -(r / m)); Minus(m, 0, r / m); }
    ModOf(m * k + r, m, k + r / m, r % m);
  }

  lemma Commute(x: int, y: int)
    ensures x * y == y * x
  {
  }

  lemma Split(x: nat, p: nat, q: nat)
    requires p > 0 && q > 0 && x < p * q
    ensures x == p * (x / p) + x % p && x / p < q && x % p < p
  {
    DivModOf(x, p);
    if x / p >= q {
      Minus(p, x / p, q);
      NonNegative(p, x / p - q);
    }
  }

  /** Joining a high part below `q` and a low part below `p` gives a number below `p * q`. */
  lemma Join(h: nat, l: nat, p: nat, q: nat)
    requires p > 0 && h < q && l < p
    ensures (p * h + l) / p == h && (p * h + l) % p == l && p * h + l < p * q
  {
    ModOf(p * h + l, p, h, l);
    DivOf(p * h + l, p, h, l);
    Minus(p, q, h + 1);
    Minus(p, h + 1, 1);
    NonNegative(p, q - h - 1);
  }

  /** Exchanging the two parts of a number below `p * q`, twice. */
  lemma ExchangeTwice(x: int, p: nat, q: nat)
    requires p > 0 && q > 0 && 0 <= x < p * q
    ensures var y := x / p + (x % p) * q;
            0 <= y < p * q && y / q + (y % q) * p == x
  {
    Split(x, p, q);
    var h, l := x / p, x % p;
    Join(l, h, q, p);
    Commute(l, q);
    Commute(p, q);
    Commute(h, p);
    var y := q * l + h;
    NonNegative(q, l);
    assert y == h + l * q;
  }
}
