/** Facts about products, quotients and remainders that the solver does not find alone. */
module Arithmetic {
  lemma MulOrder(a: nat, b: nat, size: nat)
    requires a <= b
    ensures a * size <= b * size
    ensures a < b ==> a * size + size <= b * size
  {
    assert b * size == a * size + (b - a) * size;
    if a < b {
      assert (b - a) * size == size + (b - a - 1) * size;
    }
  }

  lemma UniqueRemainder(b: nat, n: nat, q: int, r: nat)
    requires n > 0 && r < n && b == q * n + r
    ensures b % n == r && b / n == q
  {
    var q' := b / n;
    assert (q - q') * n == b % n - r;
    if q > q' {
      MulOrder(1, q - q', n);
    } else if q < q' {
      assert (q' - q) * n == r - b % n;
      MulOrder(1, q' - q, n);
    }
  }

  lemma AddMod(x: nat, y: nat, n: nat)
    requires n > 0
    ensures (x % n + y) % n == (x + y) % n
  {
    var a, b := x % n + y, x + y;
    assert b == a + (x / n) * n;
    assert b == (a / n + x / n) * n + a % n by {
      assert (a / n + x / n) * n == (a / n) * n + (x / n) * n;
    }
    UniqueRemainder(b, n, a / n + x / n, a % n);
  }

  lemma DivModStep(n: nat, p: nat)
    requires p >= 1
    ensures n % p + 1 == p ==> (n + 1) % p == 0 && (n + 1) / p == n / p + 1
    ensures n % p + 1 != p ==> (n + 1) % p == n % p + 1 && (n + 1) / p == n / p
  {
    if n % p + 1 == p {
      assert (n / p + 1) * p == (n / p) * p + p;
      UniqueRemainder(n + 1, p, n / p + 1, 0);
    } else {
      UniqueRemainder(n + 1, p, n / p, n % p + 1);
    }
  }

  lemma ModBound(n: nat, p: nat)
    requires p >= 1
    ensures 0 <= n % p < p
  {
  }

  lemma DivModZero(p: nat)
    requires p >= 1
    ensures 0 % p == 0 && 0 / p == 0
  {
  }

  lemma QuotientPositive(n: nat, p: nat)
    requires p >= 1
    ensures n / p > 0 <==> n >= p
  {
    if n < p {
      UniqueRemainder(n, p, 0, n);
    } else {
      assert n == (n / p) * p + n % p;
    }
  }

  lemma ScaleTen(a: nat, b: nat, p: nat)
    ensures (10 * a + b) * p == a * (10 * p) + b * p
  {
  }

  lemma RemainderSplit16(q: nat, p: nat)
    requires p >= 1
    ensures q % (16 * p) == 16 * ((q / 16) % p) + q % 16
  {
    var a, b := q / 16, q % 16;
    var c, r := a / p, a % p;
    assert a == c * p + r;
    assert 16 * (c * p) == c * (16 * p);
    UniqueRemainder(q, 16 * p, c, 16 * r + b);
  }

  lemma RemainderSplit256(q: nat, p: nat)
    requires p >= 1
    ensures q % (0x100 * p) == 0x100 * ((q / 0x100) % p) + q % 0x100
  {
    var a, b := q / 0x100, q % 0x100;
    var c, r := a / p, a % p;
    assert a == c * p + r;
    assert 0x100 * (c * p) == c * (0x100 * p);
    UniqueRemainder(q, 0x100 * p, c, 0x100 * r + b);
  }
}
