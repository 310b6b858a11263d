/** Integer facts the whole project rests on: powers, division with remainder,
    congruences. */
module Arith {

  function Pow(b: int, e: nat): int {
    if e == 0 then 1 else b * Pow(b, e - 1)
  }

  function Pow2(e: nat): (r: nat)
    ensures r > 0
  {
    if e == 0 then 1 else 2 * Pow2(e - 1)
  }

  function Abs(x: int): nat {
    if x < 0 then -x else x
  }

  // ---------- multiplication ----------

  lemma MulMono(a: int, b: int, c: int)
    requires a <= b && 0 <= c
    ensures a * c <= b * c
  {}

  lemma MulStrict(a: int, b: int, c: int)
    requires a < b && 0 < c
    ensures a * c < b * c
  {}

  lemma MulPos(a: int, b: int)
    requires 0 < a && 0 < b
    ensures 0 < a * b
  {}

  lemma MulCancelLe(a: int, b: int, c: int)
    requires 0 < c && a * c <= b * c
    ensures a <= b
  {
    if b < a { MulStrict(b, a, c); }
  }

  lemma MulCancelLt(a: int, b: int, c: int)
    requires 0 <= c && a * c < b * c
    ensures a < b
  {
    if b <= a { MulMono(b, a, c); }
  }

  lemma MulAssoc(a: int, b: int, c: int)
    ensures (a * b) * c == a * (b * c)
  {}

  lemma MulSwap(a: int, b: int, c: int, d: int)
    ensures (a * b) * (c * d) == (a * c) * (b * d)
  {
    MulAssoc(a, b, c * d);
    MulAssoc(a, c, b * d);
    MulAssoc(b, c, d);
    MulAssoc(c, b, d);
  }

  lemma MulDist(a: int, b: int, c: int)
    ensures (a + b) * c == a * c + b * c
    ensures (a - b) * c == a * c - b * c
  {}

  lemma SmallMultiple(k: int, b: int)
    requires Abs(k * b) < Abs(b)
    ensures k == 0
  {
    if b > 0 {
      if k >= 1 { MulMono(1, k, b); }
      if k <= -1 { MulMono(k, -1, b); }
    } else {
      assert k * (-b) == -(k * b);
      if k >= 1 { MulMono(1, k, -b); }
      if k <= -1 { MulMono(k, -1, -b); }
    }
  }

  lemma MulDistMid(p: int, x: int, y: int, q: int)
    ensures p * (x + y * q) == p * x + y * (p * q)
  {
    MulDist(x, y * q, p);
    MulAssoc(y, q, p);
  }

  // ---------- powers ----------

  lemma {:induction false} PowPos(b: int, e: nat)
    requires b > 0
    ensures Pow(b, e) > 0
  {
    if e > 0 {
      PowPos(b, e - 1);
      MulPos(b, Pow(b, e - 1));
    }
  }

  lemma {:induction false} PowNonNeg(b: int, e: nat)
    requires b >= 0
    ensures Pow(b, e) >= 0
  {
    if e > 0 {
      PowNonNeg(b, e - 1);
      MulMono(0, b, Pow(b, e - 1));
    }
  }

  lemma {:induction false} PowAdd(b: int, m: nat, n: nat)
    ensures Pow(b, m + n) == Pow(b, m) * Pow(b, n)
  {
    if m > 0 {
      PowAdd(b, m - 1, n);
      assert Pow(b, m + n) == b * (Pow(b, m - 1) * Pow(b, n));
      assert b * (Pow(b, m - 1) * Pow(b, n)) == (b * Pow(b, m - 1)) * Pow(b, n);
    }
  }

  lemma {:induction false} PowMul(b: int, m: nat, n: nat)
    ensures m * n >= 0
    ensures Pow(b, m * n) == Pow(Pow(b, m), n)
  {
    if n > 0 {
      assert m * (n - 1) + m == m * n;
      PowMul(b, m, n - 1);
      PowAdd(b, m, m * (n - 1));
    }
  }

  lemma {:induction false} PowProd(a: int, b: int, e: nat)
    ensures Pow(a * b, e) == Pow(a, e) * Pow(b, e)
  {
    if e > 0 {
      PowProd(a, b, e - 1);
      MulSwap(a, b, Pow(a, e - 1), Pow(b, e - 1));
    }
  }

  lemma PowOne(b: int)
    ensures Pow(b, 1) == b
  {
    assert Pow(b, 1) == b * Pow(b, 0);
  }

  lemma PowTwo(b: int)
    ensures Pow(b, 2) == b * b
  {
    PowOne(b);
    assert Pow(b, 2) == b * Pow(b, 1);
  }

  lemma {:induction false} Pow2Add(m: nat, n: nat)
    ensures Pow2(m + n) == Pow2(m) * Pow2(n)
  {
    if m > 0 {
      Pow2Add(m - 1, n);
      assert Pow2(m + n) == 2 * (Pow2(m - 1) * Pow2(n));
    }
  }

  lemma {:induction false} Pow2Mono(m: nat, n: nat)
    requires m <= n
    ensures Pow2(m) <= Pow2(n)
    decreases n
  {
    if m < n { Pow2Mono(m, n - 1); }
  }

  lemma Pow2StrictMono(m: nat, n: nat)
    requires m < n
    ensures 2 * Pow2(m) <= Pow2(n)
  {
    Pow2Mono(m + 1, n);
  }

  lemma {:induction false} Pow2Pow(m: nat, n: nat)
    ensures m * n >= 0
    ensures Pow2(m * n) == Pow(Pow2(m), n)
  {
    if n > 0 {
      assert m * (n - 1) + m == m * n;
      Pow2Pow(m, n - 1);
      Pow2Add(m, m * (n - 1));
    }
  }

  lemma Pow2Values()
    ensures Pow2(0) == 1 && Pow2(1) == 2 && Pow2(2) == 4 && Pow2(3) == 8
    ensures Pow2(4) == 16 && Pow2(5) == 32 && Pow2(6) == 64 && Pow2(7) == 128 && Pow2(8) == 256
  {}

  lemma Pow2WordValues()
    ensures Pow2(16) == 0x1_0000 && Pow2(32) == 0x1_0000_0000
    ensures Pow2(64) == 0x1_0000_0000_0000_0000
  {
    Pow2Values();
    Pow2Add(8, 8);
    Pow2Add(16, 16);
    Pow2Add(32, 32);
  }

  /** Whatever is below a power of two has fewer bits than that power. */
  lemma Pow2Between(x: nat, m: nat, n: nat)
    requires Pow2(m) <= x < Pow2(n)
    ensures m < n
  {
    if n <= m { Pow2Mono(n, m); }
  }

  // ---------- division with remainder ----------

  lemma DivModFacts(x: int, n: int)
    requires n > 0
    ensures x == n * (x / n) + x % n && 0 <= x % n < n
  {}

  /** Quotient and remainder are unique. */
  lemma DivModUnique(x: int, q: int, r: int, n: int)
    requires n > 0 && 0 <= r < n && x == q * n + r
    ensures x / n == q && x % n == r
  {
    var q', r' := x / n, x % n;
    DivModFacts(x, n);
    assert (q - q') * n == r' - r;
    if q - q' >= 1 {
      MulMono(1, q - q', n);
    } else if q - q' <= -1 {
      MulMono(q - q', -1, n);
    }
  }

  lemma ModSmall(x: int, n: int)
    requires 0 <= x < n
    ensures x % n == x && x / n == 0
  {
    DivModUnique(x, 0, x, n);
  }

  lemma DivMono(x: int, y: int, n: int)
    requires n > 0 && x <= y
    ensures x / n <= y / n
  {
    DivModFacts(x, n);
    DivModFacts(y, n);
    if y / n < x / n { MulMono(y / n + 1, x / n, n); }
  }

  lemma DivLess(x: nat, n: int, k: nat)
    requires n > 0 && x < k * n
    ensures 0 <= x / n < k
  {
    DivModFacts(x, n);
    if x / n >= k { MulMono(k, x / n, n); }
  }

  lemma DivDiv(x: nat, m: int, n: int)
    requires m > 0 && n > 0
    ensures m * n > 0
    ensures (x / m) / n == x / (m * n)
    ensures x % (m * n) == (x / m % n) * m + x % m
  {
    MulPos(m, n);
    var q, r := x / m, x % m;
    DivModFacts(x, m);
    DivModFacts(q, n);
    var r' := (q % n) * m + r;
    MulMono(q % n, n - 1, m);
    MulMono(0, q % n, m);
    assert (n - 1) * m == m * n - m;
    assert x == m * (n * (q / n) + q % n) + r;
    assert m * (n * (q / n) + q % n) == (q / n) * (m * n) + (q % n) * m;
    DivModUnique(x, q / n, r', m * n);
  }

  /** q is at most the quotient exactly when q times the divisor fits. */
  lemma QuotientTest(n: int, d: nat, q: int)
    requires d > 0
    ensures q * d <= n <==> q <= n / d
  {
    DivModFacts(n, d);
    if q > n / d {
      MulMono(n / d + 1, q, d);
      MulDist(n / d, 1, d);
    } else {
      MulMono(q, n / d, d);
    }
  }

  /** x * p split at p * q. */
  lemma SplitProduct(x: nat, p: int, q: int)
    requires p > 0 && q > 0
    ensures x * p == (x / q) * (p * q) + (x % q) * p
    ensures 0 <= (x % q) * p < p * q
  {
    DivModFacts(x, q);
    MulDist(q * (x / q), x % q, p);
    MulAssoc(x / q, q, p);
    MulStrict(x % q, q, p);
  }

  /** A dividend split at a multiple of the divisor. */
  lemma DivModShift(q: int, r: int, n: int)
    requires n > 0
    ensures (q * n + r) / n == q + r / n && (q * n + r) % n == r % n
  {
    DivModFacts(r, n);
    assert q * n + (n * (r / n) + r % n) == (q + r / n) * n + r % n;
    DivModUnique(q * n + r, q + r / n, r % n, n);
  }

  // ---------- congruence ----------

  /** a and b leave the same remainder modulo n. */
  ghost predicate Cong(a: int, b: int, n: int)
    requires n > 0
  {
    a % n == b % n
  }

  lemma CongRefl(a: int, n: int)
    requires n > 0
    ensures Cong(a, a, n)
  {}

  lemma CongTrans(a: int, b: int, c: int, n: int)
    requires n > 0 && Cong(a, b, n) && Cong(b, c, n)
    ensures Cong(a, c, n)
  {}

  lemma CongSym(a: int, b: int, n: int)
    requires n > 0 && Cong(a, b, n)
    ensures Cong(b, a, n)
  {}

  /** The definition, for proofs that otherwise keep it folded. */
  lemma CongIs(a: int, b: int, n: int)
    requires n > 0
    ensures Cong(a, b, n) <==> a % n == b % n
  {}

  lemma CongIntro(a: int, b: int, k: int, n: int)
    requires n > 0 && a == b + k * n
    ensures Cong(a, b, n)
  {
    DivModShift(k, b, n);
  }

  lemma CongElim(a: int, b: int, n: int) returns (k: int)
    requires n > 0 && Cong(a, b, n)
    ensures a == b + k * n
  {
    DivModFacts(a, n);
    DivModFacts(b, n);
    k := a / n - b / n;
    assert k * n == n * (a / n) - n * (b / n);
  }

  lemma CongMod(a: int, n: int)
    requires n > 0
    ensures Cong(a % n, a, n)
  {
    ModSmall(a % n, n);
  }

  lemma CongSmall(a: int, b: int, n: int)
    requires n > 0 && Cong(a, b, n) && 0 <= a < n && 0 <= b < n
    ensures a == b
  {
    ModSmall(a, n);
    ModSmall(b, n);
  }

  lemma CongAdd(a: int, a': int, b: int, b': int, n: int)
    requires n > 0 && Cong(a, a', n) && Cong(b, b', n)
    ensures Cong(a + b, a' + b', n)
  {
    var i := CongElim(a, a', n);
    var j := CongElim(b, b', n);
    assert i * n + j * n == (i + j) * n;
    CongIntro(a + b, a' + b', i + j, n);
  }

  lemma CongMul(a: int, a': int, b: int, b': int, n: int)
    requires n > 0 && Cong(a, a', n) && Cong(b, b', n)
    ensures Cong(a * b, a' * b', n)
  {
    var i := CongElim(a, a', n);
    var j := CongElim(b, b', n);
    // a * b - a' * b' = a * (b - b') + (a - a') * b' = (a * j + i * b') * n
    var k := a * j + i * b';
    MulDist(b', j * n, a);
    MulDist(a', i * n, b');
    MulAssoc(a, j, n);
    MulAssoc(b', i, n);
    MulDist(a * j, i * b', n);
    CongIntro(a * b, a' * b', k, n);
  }

  lemma CongScale(a: int, b: int, c: int, n: int)
    requires n > 0 && Cong(a, b, n)
    ensures Cong(a * c, b * c, n)
  {
    CongMul(a, b, c, c, n);
  }

  lemma CongNeg(a: int, b: int, n: int)
    requires n > 0 && Cong(a, b, n)
    ensures Cong(-a, -b, n)
  {
    var i := CongElim(a, b, n);
    assert -(i * n) == (-i) * n;
    CongIntro(-a, -b, -i, n);
  }

  lemma {:induction false} CongPow(a: int, b: int, e: nat, n: int)
    requires n > 0 && Cong(a, b, n)
    ensures Cong(Pow(a, e), Pow(b, e), n)
  {
    if e > 0 {
      CongPow(a, b, e - 1, n);
      CongMul(a, b, Pow(a, e - 1), Pow(b, e - 1), n);
    }
  }

  lemma CongZero(a: int, n: int)
    requires n > 0
    ensures Cong(a, 0, n) <==> a % n == 0
  {
    ModSmall(0, n);
  }

  /** A factor with an inverse can be cancelled. */
  lemma CongCancel(a: int, b: int, c: int, inv: int, n: int)
    requires n > 0 && Cong(c * inv, 1, n) && Cong(a * c, b * c, n)
    ensures Cong(a, b, n)
  {
    CongScale(a * c, b * c, inv, n);
    assert a * c * inv == a * (c * inv) && b * c * inv == b * (c * inv);
    CongMul(a, a, c * inv, 1, n);
    CongMul(b, b, c * inv, 1, n);
  }
}
