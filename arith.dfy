/** Powers of two, logical right shift and the few facts about Euclidean
    division and remainder that word arithmetic modulo 2^w needs. */
module Arith {

  /** 2^k, the number of rows of a truth table over k variables and the
      modulus of a k-bit word. */
  function Pow2(k: nat): (r: nat)
    ensures r >= 1
  {
    if k == 0 then 1 else 2 * Pow2(k - 1)
  }

  /** 2^k exceeds k. */
  lemma {:induction false} Pow2Above(k: nat)
    ensures Pow2(k) > k
  {
    if k > 0 {
      Pow2Above(k - 1);
    }
  }

  /** 2^(a + c) is 2^a times 2^c. */
  lemma {:induction false} Pow2Sum(a: nat, c: nat)
    ensures Pow2(a + c) == Pow2(a) * Pow2(c)
  {
    if c > 0 {
      Pow2Sum(a, c - 1);
      assert Pow2(a + c) == 2 * (Pow2(a) * Pow2(c - 1));
    }
  }

  /** A wider power of two is at least twice a narrower one. */
  lemma Pow2Below(a: nat, b: nat)
    requires a < b
    ensures 2 * Pow2(a) <= Pow2(b)
  {
    Pow2Sum(a, b - a);
    MulMonotone(2, Pow2(b - a), Pow2(a));
  }

  /** Multiplication is associative. */
  lemma MulAssoc(a: int, b: int, c: int)
    ensures (a * b) * c == a * (b * c)
  {
  }

  /** Truncating to b bits keeps the low a bits when a <= b. */
  lemma NarrowerMod(x: int, a: nat, b: nat)
    requires a <= b
    ensures (x % Pow2(b)) % Pow2(a) == x % Pow2(a)
  {
    Pow2Sum(a, b - a);
    ModOfMultiple(x, Pow2(a), Pow2(b - a));
  }

  /** Reducing modulo a multiple of p first keeps the remainder modulo p. */
  lemma ModOfMultiple(x: int, p: int, wider: int)
    requires p > 0 && wider > 0
    ensures (x % (p * wider)) % p == x % p
  {
    var big := p * wider;
    var q, r := x / big, x % big;
    assert x == big * q + r;
    MulAssoc(p, wider, q);
    ModAddMultiple(r, p, wider * q);
  }

  /** `i >> s` on a non-negative integer, one bit at a time. */
  function Shr(i: nat, s: nat): nat
  {
    if s == 0 then i else Shr(i, s - 1) / 2
  }

  /** `(i >> s) & 1`: bit `s` of `i`, counting from the least significant. */
  function Bit(i: nat, s: nat): (b: nat)
    ensures b <= 1
  {
    Shr(i, s) % 2
  }

  /** A positive multiple of a positive number is at least that number. */
  lemma MulAtLeast(m: int, d: int)
    requires m > 0 && d >= 1
    ensures m * d >= m
  {
    assert m * d == m + m * (d - 1);
    assert m * (d - 1) >= 0;
  }

  /** Multiplying by a non-negative number preserves order. */
  lemma MulMonotone(a: int, b: int, c: int)
    requires a <= b && c >= 0
    ensures a * c <= b * c
  {
    assert b * c - a * c == (b - a) * c;
  }

  /** A nonzero value smaller in magnitude than the modulus is not a multiple of it. */
  lemma ModSmallNonzero(x: int, m: int)
    requires 0 < m && x != 0 && -m < x < m
    ensures x % m != 0
  {
    if x > 0 {
      DivModUnique(x, m, 0, x);
    } else {
      DivModUnique(x, m, -1, m + x);
    }
  }

  /** Quotient and remainder are determined by the defining equation. */
  lemma DivModUnique(x: int, m: int, q: int, r: int)
    requires m > 0 && x == m * q + r && 0 <= r < m
    ensures x / m == q && x % m == r
  {
    var q0, r0 := x / m, x % m;
    assert x == m * q0 + r0;
    var d := q - q0;
    assert m * q == m * q0 + m * d;
    assert m * d == r0 - r;
    if d >= 1 {
      MulAtLeast(m, d);
    } else if d <= -1 {
      MulAtLeast(m, -d);
    }
  }

  /** Adding a multiple of the modulus does not change the remainder. */
  lemma ModAddMultiple(x: int, m: int, k: int)
    requires m > 0
    ensures (x + m * k) % m == x % m
  {
    assert x + m * k == m * (x / m + k) + x % m;
    DivModUnique(x + m * k, m, x / m + k, x % m);
  }

  /** Multiplying by m - 1 is negating, modulo m. */
  lemma ModMinusOne(d: int, m: int)
    requires m > 0
    ensures (d * (m - 1)) % m == (-d) % m
  {
    assert d * (m - 1) == -d + m * d;
    ModAddMultiple(-d, m, d);
  }

  /** Reducing the left operand of a sum first does not change the result. */
  lemma ModAddLeft(a: int, b: int, m: int)
    requires m > 0
    ensures (a % m + b) % m == (a + b) % m
  {
    assert a % m + b == (a + b) + m * -(a / m);
    ModAddMultiple(a + b, m, -(a / m));
  }

  /** Reducing the left operand of a difference first does not change the result. */
  lemma ModSubLeft(a: int, b: int, m: int)
    requires m > 0
    ensures (a % m - b) % m == (a - b) % m
  {
    assert a % m - b == (a - b) + m * -(a / m);
    ModAddMultiple(a - b, m, -(a / m));
  }

  /** Reducing a factor first does not change the remainder of a product. */
  lemma ModMulRight(x: int, s: int, m: int)
    requires m > 0
    ensures (x * (s % m)) % m == (x * s) % m
  {
    var q := s / m;
    assert s == m * q + s % m;
    assert x * s == x * (s % m) + m * (x * q);
    ModAddMultiple(x * (s % m), m, x * q);
  }

  /** The low w bits of x are its lowest bit below the low w-1 bits of x/2. */
  lemma ModSplit(x: int, m: int)
    requires m > 0
    ensures x % (2 * m) == 2 * ((x / 2) % m) + x % 2
  {
    var h := x / 2;
    assert x == 2 * h + x % 2;
    assert h == m * (h / m) + h % m;
    assert x == (2 * m) * (h / m) + (2 * (h % m) + x % 2);
    DivModUnique(x, 2 * m, h / m, 2 * (h % m) + x % 2);
  }

  /** Shifting right by s divides by 2^s. */
  lemma {:induction false} ShrIsDiv(i: nat, s: nat)
    ensures Shr(i, s) == i / Pow2(s)
  {
    if s > 0 {
      ShrIsDiv(i, s - 1);
      HalveQuotient(i, Pow2(s - 1));
    }
  }

  /** Halving the quotient by p gives the quotient by 2p. */
  lemma HalveQuotient(x: nat, p: int)
    requires p > 0
    ensures (x / p) / 2 == x / (2 * p)
  {
    var h, r := x / p, x % p;
    var a, b := h / 2, h % 2;
    assert x == p * h + r;
    ShiftStep(x, p, h, r, a, b);
    DivModUnique(x, 2 * p, a, p * b + r);
  }

  /** Regrouping x = p*h + r, h = 2a + b, as a quotient and remainder by 2p. */
  lemma ShiftStep(x: int, p: int, h: int, r: int, a: int, b: int)
    requires p > 0 && x == p * h + r && 0 <= r < p && h == 2 * a + b && 0 <= b <= 1
    ensures x == (2 * p) * a + (p * b + r) && 0 <= p * b + r < 2 * p
  {
    assert p * h == (2 * p) * a + p * b;
    assert p * b == (if b == 1 then p else 0);
  }

  /** Below 2^(s+1), bit s is set exactly in the upper half. */
  lemma TopBit(i: nat, s: nat)
    requires i < Pow2(s + 1)
    ensures Bit(i, s) == (if i >= Pow2(s) then 1 else 0)
  {
    ShrIsDiv(i, s);
    if i >= Pow2(s) {
      DivModUnique(i, Pow2(s), 1, i - Pow2(s));
    } else {
      DivModUnique(i, Pow2(s), 0, i);
    }
  }
}
