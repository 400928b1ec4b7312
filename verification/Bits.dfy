/** Powers of two, masks and shifts on unsigned numbers. */
module Bits {

  type Byte = x: int | 0 <= x < 256

  function Pow2(e: nat): (r: nat)
    ensures r >= 1
  {
    if e == 0 then 1 else 2 * Pow2(e - 1)
  }

  lemma {:induction false} Pow2Add(a: nat, b: nat)
    ensures Pow2(a + b) == Pow2(a) * Pow2(b)
  {
    if b > 0 {
      Pow2Add(a, b - 1);
      assert Pow2(a + b) == 2 * Pow2(a + (b - 1));
    }
  }

  lemma {:induction false} Pow2Monotone(a: nat, b: nat)
    requires a <= b
    ensures Pow2(a) <= Pow2(b)
  {
    if a < b {
      Pow2Monotone(a, b - 1);
    }
  }

  lemma SmallPowers()
    ensures Pow2(1) == 2 && Pow2(3) == 8 && Pow2(4) == 16 && Pow2(5) == 32 && Pow2(6) == 64 && Pow2(7) == 128
    ensures Pow2(8) == 256
  {
    assert Pow2(2) == 4 && Pow2(4) == 2 * Pow2(3) && Pow2(6) == 2 * Pow2(5) && Pow2(8) == 2 * Pow2(7);
  }

  /** Bitwise and. */
  function And(a: nat, b: nat): nat {
    if a == 0 || b == 0 then 0
    else 2 * And(a / 2, b / 2) + (if a % 2 == 1 && b % 2 == 1 then 1 else 0)
  }

  lemma Distribute(a: int, b: int, m: int)
    ensures (a + b) * m == a * m + b * m
  {
  }

  lemma MulLess(x: int, y: int, m: nat)
    ensures x < y ==> x * m + m <= y * m
  {
    if x < y {
      Distribute(x, y - x, m);
      Distribute(y - x - 1, 1, m);
      var k := y - x - 1;
      assert k * m >= 0;
    }
  }

  lemma Divide(a: nat, m: nat)
    requires m > 0
    ensures a == (a / m) * m + a % m && a % m < m
  {
  }

  lemma QuotientUnique(a: nat, m: nat, q: nat, r: nat)
    requires m > 0 && a == q * m + r && r < m
    ensures a / m == q && a % m == r
  {
    Divide(a, m);
    MulLess(a / m, q, m);
    MulLess(q, a / m, m);
  }

  lemma ModHalves(a: nat, p: nat)
    requires p > 0
    ensures a % (2 * p) == 2 * ((a / 2) % p) + a % 2
  {
    var q, r := (a / 2) / p, (a / 2) % p;
    assert a / 2 == q * p + r;
    DoubleQuotient(q, p);
    assert (2 * q) * p == 2 * (q * p);
    QuotientUnique(a, 2 * p, q, 2 * r + a % 2);
  }

  /** Masking with 2^e - 1 keeps the remainder modulo 2^e. */
  lemma {:induction false} AndMask(a: nat, e: nat)
    ensures And(a, Pow2(e) - 1) == a % Pow2(e)
  {
    if e > 0 {
      var p := Pow2(e - 1);
      AndMask(a / 2, e - 1);
      ModHalves(a, p);
      assert Pow2(e) - 1 == 2 * (p - 1) + 1;
      assert (Pow2(e) - 1) / 2 == p - 1 && (Pow2(e) - 1) % 2 == 1;
    }
  }

  lemma HalfModulus(a: nat, m: nat, n: nat, q: nat, r: nat)
    requires m > 0 && n == m + m && a == q * n + r && r < n
    ensures a % m == if r < m then r else r - m
  {
    assert n == 2 * m;
    DoubleQuotient(q, m);
    if r < m {
      QuotientUnique(a, m, 2 * q, r);
    } else {
      QuotientUnique(a, m, 2 * q + 1, r - m);
    }
  }

  lemma DivideInto(a: nat, m: nat) returns (q: nat, r: nat)
    requires m > 0
    ensures a == q * m + r && r < m && r == a % m
  {
    q, r := a / m, a % m;
    Divide(a, m);
  }

  /** A remainder modulo n = 2m is the remainder modulo m, or m more. */
  lemma ModDouble(a: nat, m: nat, n: nat)
    requires m > 0 && n == m + m
    ensures a % n == a % m || a % n == a % m + m
  {
    var q, r := DivideInto(a, n);
    HalfModulus(a, m, n, q, r);
  }

  lemma DoubleQuotient(q: nat, m: nat)
    ensures (2 * q) * m == q * (2 * m) && (2 * q + 1) * m == q * (2 * m) + m
  {
  }

  function Quotient(a: nat, m: nat): nat
    requires m > 0
  {
    a / m
  }

  /** The quotient rounded up. */
  function CeilDiv(a: nat, m: nat): nat
    requires m > 0
  {
    a / m + if a % m != 0 then 1 else 0
  }

  lemma CeilDivBounds(a: nat, m: nat)
    requires m > 0
    ensures m * CeilDiv(a, m) >= a && (a > 0 ==> m * (CeilDiv(a, m) - 1) < a && CeilDiv(a, m) >= 1)
  {
    var q := a / m;
    assert a == q * m + a % m;
    assert m * (q + 1) == m * q + m && m * q == q * m && m * (q - 1) == m * q - m;
  }
}
