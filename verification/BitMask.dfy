/** Bitwise and on Go's two's-complement integers, and why masking with `n - 1` is reduction modulo a
    power of two, for negative operands as well. */
module BitMask {
  /** The bits of `a & b` for a non-negative `b`.  Halving rounds down, as the arithmetic shift does. */
  function And(a: int, b: nat): nat
    decreases b
  {
    if b == 0 then 0 else (a % 2) * (b % 2) + 2 * And(a / 2, b / 2)
  }

  predicate IsPowerOfTwo(n: int)
    decreases n
  {
    n == 1 || (n > 1 && n % 2 == 0 && IsPowerOfTwo(n / 2))
  }

  lemma DoubledModulus(a: int, m: int)
    requires m > 0
    ensures a % (2 * m) == a % 2 + 2 * ((a / 2) % m)
  {
    var q, r := (a / 2) / m, a % 2 + 2 * ((a / 2) % m);
    assert a == 2 * (a / 2) + a % 2;
    assert a / 2 == m * q + (a / 2) % m;
    assert a == (2 * m) * q + r;
    ModuloIsUnique(a, 2 * m, q, r);
  }

  lemma ModuloIsUnique(a: int, n: int, q: int, r: int)
    requires n > 0 && 0 <= r < n && a == n * q + r
    ensures a % n == r
  {
    var d := a / n - q;
    assert n * d == r - a % n;
    SmallMultiple(n, d);
  }

  lemma SmallMultiple(n: int, d: int)
    requires -n < n * d < n
    ensures d == 0
  {
  }

  lemma DoubledPower(n: int)
    requires IsPowerOfTwo(n)
    ensures IsPowerOfTwo(2 * n) && n >= 1
  {
    assert (2 * n) / 2 == n;
  }

  lemma NegatedModulo(n: int, m: int)
    requires m > 0
    ensures (-n) % m == if n % m == 0 then 0 else m - n % m
  {
    var q, k := n / m, n % m;
    assert n == m * q + k;
    if k == 0 {
      assert -n == m * -q + 0;
      ModuloIsUnique(-n, m, -q, 0);
    } else {
      assert m * (-q - 1) == -(m * q) - m;
      ModuloIsUnique(-n, m, -q - 1, m - k);
    }
  }

  lemma NextModulo(n: int, m: int)
    requires m > 0
    ensures (n + 1) % m == if n % m == m - 1 then 0 else n % m + 1
  {
    var q, k := n / m, n % m;
    if k == m - 1 {
      ModuloIsUnique(n + 1, m, q + 1, 0);
    } else {
      ModuloIsUnique(n + 1, m, q, k + 1);
    }
  }

  lemma {:induction false} MaskIsModulo(a: int, n: int)
    requires IsPowerOfTwo(n)
    ensures And(a, n - 1) == a % n
    decreases n
  {
    if n > 1 {
      MaskIsModulo(a / 2, n / 2);
      assert (n - 1) % 2 == 1 && (n - 1) / 2 == n / 2 - 1;
      DoubledModulus(a, n / 2);
    }
  }
}
