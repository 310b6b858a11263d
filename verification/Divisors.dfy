/** Divisibility, greatest common divisors and primes: the mathematics that gcd, inv_mod and
    the primality test rest on. */
module Divisors {
  import opened Arith

  /** Euclid's algorithm, as the reference definition. */
  function Gcd(a: nat, b: nat): nat
    decreases b
  {
    if b == 0 then a else Gcd(b, a % b)
  }

  ghost predicate Divides(d: int, n: int) {
    exists k: int :: n == k * d
  }

  lemma DividesBy(d: int, n: int, k: int)
    requires n == k * d
    ensures Divides(d, n)
  {}

  lemma DividesTrans(a: int, b: int, c: int)
    requires Divides(a, b) && Divides(b, c)
    ensures Divides(a, c)
  {
    var i :| b == i * a;
    var j :| c == j * b;
    MulAssoc(j, i, a);
    DividesBy(a, c, j * i);
  }

  /** A divisor of x and y divides every combination of them. */
  lemma DividesCombination(d: int, x: int, y: int, u: int, v: int)
    requires Divides(d, x) && Divides(d, y)
    ensures Divides(d, u * x + v * y)
  {
    var i :| x == i * d;
    var j :| y == j * d;
    MulAssoc(u, i, d);
    MulAssoc(v, j, d);
    MulDist(u * i, v * j, d);
    DividesBy(d, u * x + v * y, u * i + v * j);
  }

  lemma DividesMod(d: int, n: int)
    requires d > 0
    ensures Divides(d, n) <==> n % d == 0
  {
    if n % d == 0 {
      DividesBy(d, n, n / d);
    }
    if Divides(d, n) {
      var k :| n == k * d;
      DivModUnique(n, k, 0, d);
    }
  }

  lemma DividesLe(d: int, n: int)
    requires Divides(d, n) && n > 0 && d >= 0
    ensures 0 < d <= n
  {
    var k :| n == k * d;
    if k <= 0 { MulMono(k, 0, d); }
    MulMono(1, k, d);
  }

  lemma DividesSelf(n: int)
    ensures Divides(n, n) && Divides(n, 0) && Divides(1, n)
  {
    DividesBy(n, n, 1);
    DividesBy(n, 0, 0);
    DividesBy(1, n, n);
  }

  /** The gcd divides both numbers, and every common divisor divides it. */
  lemma {:induction false} GcdDivides(a: nat, b: nat)
    ensures Divides(Gcd(a, b), a) && Divides(Gcd(a, b), b)
    decreases b
  {
    if b == 0 {
      DividesSelf(a);
    } else {
      GcdDivides(b, a % b);
      DivModFacts(a, b);
      DividesCombination(Gcd(a, b), b, a % b, a / b, 1);
      assert a / b * b + 1 * (a % b) == a;
    }
  }

  lemma {:induction false} GcdGreatest(a: nat, b: nat, d: int)
    requires Divides(d, a) && Divides(d, b)
    ensures Divides(d, Gcd(a, b))
    decreases b
  {
    if b != 0 {
      DivModFacts(a, b);
      DividesCombination(d, a, b, 1, -(a / b));
      assert 1 * a + -(a / b) * b == a % b;
      GcdGreatest(b, a % b, d);
    }
  }

  lemma GcdPositive(a: nat, b: nat)
    requires a > 0 || b > 0
    ensures Gcd(a, b) > 0
  {
    GcdDivides(a, b);
    if a > 0 { DividesLe(Gcd(a, b), a); } else { DividesLe(Gcd(a, b), b); }
  }

  /** Numbers with the same common divisors have the same gcd. */
  lemma GcdSame(a: nat, b: nat, c: nat, d: nat)
    requires Divides(Gcd(a, b), c) && Divides(Gcd(a, b), d)
    requires Divides(Gcd(c, d), a) && Divides(Gcd(c, d), b)
    ensures Gcd(a, b) == Gcd(c, d)
  {
    GcdGreatest(a, b, Gcd(c, d));
    GcdGreatest(c, d, Gcd(a, b));
    MutualDivisors(Gcd(a, b), Gcd(c, d));
  }

  lemma MutualDivisors(x: nat, y: nat)
    requires Divides(x, y) && Divides(y, x)
    ensures x == y
  {
    if x > 0 { DividesLe(y, x); }
    if y > 0 { DividesLe(x, y); }
  }

  lemma GcdComm(a: nat, b: nat)
    ensures Gcd(a, b) == Gcd(b, a)
  {
    GcdDivides(a, b);
    GcdDivides(b, a);
    GcdSame(a, b, b, a);
  }

  lemma GcdSub(a: nat, b: nat)
    requires a >= b
    ensures Gcd(a - b, b) == Gcd(a, b)
  {
    GcdDivides(a, b);
    GcdDivides(a - b, b);
    DividesCombination(Gcd(a, b), a, b, 1, -1);
    DividesCombination(Gcd(a - b, b), a - b, b, 1, 1);
    GcdSame(a - b, b, a, b);
  }

  lemma DividesAbs(d: int, a: int)
    ensures Divides(d, a) <==> Divides(d, Abs(a))
  {
    if Divides(d, a) { DividesCombination(d, a, a, -1, 0); }
    if Divides(d, Abs(a)) { DividesCombination(d, Abs(a), Abs(a), -1, 0); }
  }

  /** Reducing the first number modulo the second keeps the gcd. */
  lemma GcdMod(a: int, b: nat)
    requires b > 0
    ensures Gcd(a % b, b) == Gcd(Abs(a), b)
  {
    hide Gcd, Divides, Abs;
    DivModFacts(a, b);
    var g, h := Gcd(Abs(a), b), Gcd(a % b, b);
    GcdDivides(Abs(a), b);
    GcdDivides(a % b, b);
    DividesAbs(g, a);
    DividesAbs(h, a);
    SameRemainderDivisors(g, a, a / b, a % b, b);
    SameRemainderDivisors(h, a, a / b, a % b, b);
    GcdSame(a % b, b, Abs(a), b);
  }

  lemma SameRemainderDivisors(d: int, a: int, q: int, r: int, b: int)
    requires a == b * q + r && Divides(d, b)
    ensures Divides(d, a) <==> Divides(d, r)
  {
    if Divides(d, a) { DividesCombination(d, a, b, 1, -q); }
    if Divides(d, r) { DividesCombination(d, r, b, 1, q); }
  }

  lemma GcdDivisorOfCoprime(a: nat, b: nat, c: nat, d: nat)
    requires Gcd(a, b) == 1
    requires Divides(Gcd(c, d), a) && Divides(Gcd(c, d), b)
    ensures Gcd(c, d) == 1
  {
    GcdGreatest(a, b, Gcd(c, d));
    DividesLe(Gcd(c, d), 1);
  }

  /** Bezout's identity. */
  lemma {:induction false} Bezout(a: nat, b: nat) returns (x: int, y: int)
    ensures a * x + b * y == Gcd(a, b)
    decreases b
  {
    if b == 0 {
      x, y := 1, 0;
    } else {
      var u, v := Bezout(b, a % b);
      DivModFacts(a, b);
      x, y := v, u - a / b * v;
      BezoutStep(a, b, a / b, a % b, u, v);
    }
  }

  lemma BezoutStep(a: int, b: int, q: int, r: int, u: int, v: int)
    requires a == b * q + r
    ensures a * v + b * (u - q * v) == b * u + r * v
  {
    MulDist(b * q, r, v);
    MulAssoc(b, q, v);
  }

  /** Coprime numbers have an inverse. */
  lemma InverseExists(a: nat, n: nat) returns (x: int)
    requires n > 0 && Gcd(a, n) == 1
    ensures Cong(a * x, 1, n)
  {
    var u, y := Bezout(a, n);
    x := u;
    CongIntro(a * x, 1, -y, n);
  }

  // ---------- powers of two in a gcd ----------

  /** An odd number shares no factor two, so halving the other number keeps the gcd. */
  lemma GcdHalf(a: nat, b: nat)
    requires b % 2 == 1
    ensures Gcd(2 * a, b) == Gcd(a, b)
  {
    var g := Gcd(2 * a, b);
    GcdDivides(2 * a, b);
    GcdDivides(a, b);
    DividesTrans(Gcd(a, b), a, 2 * a) by { DividesBy(a, 2 * a, 2); }
    OddDivisor(g, b);
    OddDividesHalf(g, a);
    GcdSame(2 * a, b, a, b);
  }

  lemma OddDivisor(g: int, b: int)
    requires Divides(g, b) && b % 2 == 1
    ensures g % 2 == 1
  {
    var k :| b == k * g;
    if g % 2 == 0 {
      MulAssoc(k, g / 2, 2);
      DivModUnique(b, k * (g / 2), 0, 2);
    }
  }

  lemma OddDividesHalf(g: int, a: int)
    requires g % 2 == 1 && Divides(g, 2 * a)
    ensures Divides(g, a)
  {
    var k :| 2 * a == k * g;
    var h := g / 2;
    // a = 2a - a, and k must be even
    if k % 2 == 1 {
      assert k * g == 2 * (k * h) + k by { MulDist(2 * h, 1, k); MulAssoc(2, h, k); }
    }
    MulAssoc(k / 2, 2, g);
    assert k / 2 * 2 * g == k / 2 * (2 * g) == 2 * (k / 2 * g);
    DividesBy(g, a, k / 2);
  }

  lemma {:induction false} GcdShift(a: nat, b: nat, t: nat)
    requires b % 2 == 1
    ensures a * Pow2(t) >= 0 && Gcd(a * Pow2(t), b) == Gcd(a, b)
  {
    if t > 0 {
      GcdShift(a, b, t - 1);
      assert a * Pow2(t) == 2 * (a * Pow2(t - 1));
      GcdHalf(a * Pow2(t - 1), b);
    }
  }

  lemma {:induction false} GcdScale(a: nat, b: nat, k: nat)
    requires k > 0
    ensures a * k >= 0 && b * k >= 0 && Gcd(a * k, b * k) == Gcd(a, b) * k
    decreases b
  {
    if b > 0 {
      MulStrict(0, b, k);
      DivModFacts(a, b);
      MulStrict(a % b, b, k);
      MulAssoc(a / b, b, k);
      MulDist(a / b * b, a % b, k);
      DivModUnique(a * k, a / b, a % b * k, b * k);
      GcdScale(b, a % b, k);
    }
  }

  // ---------- primes ----------

  ghost predicate Prime(p: int) {
    p > 1 && forall d :: 1 < d < p ==> p % d != 0
  }

  lemma PrimeCoprime(a: nat, p: nat)
    requires Prime(p) && a % p != 0
    ensures Gcd(a, p) == 1
  {
    GcdDivides(a, p);
    var g := Gcd(a, p);
    DividesLe(g, p);
    DividesMod(g, p);
    DividesMod(p, a);
  }

  /** A prime that divides a product divides one of the factors. */
  lemma EuclidLemma(a: nat, b: int, p: nat)
    requires Prime(p) && Cong(a * b, 0, p)
    ensures Cong(a, 0, p) || Cong(b, 0, p)
  {
    hide Cong, Prime;
    PrimePositive(p);
    CongZero(a, p);
    if a % p != 0 {
      PrimeCoprime(a, p);
      var x := InverseExists(a, p);
      MulAssoc(b, a, x);
      CongCancel(b, 0, a, x, p);
    }
  }

  lemma PrimePositive(p: int)
    requires Prime(p)
    ensures p > 1
  {}

  /** 1 has only two square roots modulo a prime. */
  lemma SquareRootsOfOne(y: int, p: nat)
    requires Prime(p) && y >= 1 && Cong(y * y, 1, p)
    ensures Cong(y, 1, p) || Cong(y, -1, p)
  {
    hide Cong, Prime;
    PrimePositive(p);
    CongRefl(-1, p);
    CongAdd(y * y, 1, -1, -1, p);
    assert (y - 1) * (y + 1) == y * y + -1;
    EuclidLemma(y - 1, y + 1, p);
    CongRefl(1, p);
    if Cong(y - 1, 0, p) {
      CongAdd(y - 1, 0, 1, 1, p);
    } else {
      CongAdd(y + 1, 0, -1, -1, p);
    }
  }

  // ---------- Fermat's little theorem ----------

  function Binomial(n: nat, k: nat): nat {
    if k == 0 then 1 else if n == 0 then 0 else Binomial(n - 1, k) + Binomial(n - 1, k - 1)
  }

  lemma {:induction false} BinomialTop(n: nat, k: nat)
    requires k >= n
    ensures Binomial(n, k) == if k == n then 1 else 0
  {
    if n > 0 {
      BinomialTop(n - 1, k);
      BinomialTop(n - 1, k - 1);
    }
  }

  lemma {:induction false} Absorption(n: nat, k: nat)
    requires n > 0 && k > 0
    ensures k * Binomial(n, k) == n * Binomial(n - 1, k - 1)
  {
    if n == 1 {
      if k > 1 { BinomialTop(0, k - 1); }
      BinomialTop(0, k);
      BinomialTop(1, k);
    } else {
      Absorption(n - 1, k);
      if k > 1 { Absorption(n - 1, k - 1); }
      AbsorptionSum(n, k, Binomial(n - 1, k), Binomial(n - 1, k - 1),
        Binomial(n - 2, k - 1), if k > 1 then Binomial(n - 2, k - 2) else 0);
    }
  }

  lemma AbsorptionSum(n: int, k: int, a: int, b: int, c: int, d: int)
    requires k * a == (n - 1) * c && (k - 1) * b == (n - 1) * d && b == c + d
    ensures k * (a + b) == n * b
  {
    MulDist(k - 1, 1, b);
    MulDist(n - 1, 1, b);
  }

  /** Partial sums of the binomial expansion of (1 + a)^n. */
  function Expansion(n: nat, k: nat, a: int): int {
    Binomial(n, k) * Pow(a, k) + if k == 0 then 0 else Expansion(n, k - 1, a)
  }

  lemma {:induction false} ExpansionStep(n: nat, k: nat, a: int)
    ensures Expansion(n + 1, k, a) == Expansion(n, k, a) + if k == 0 then 0 else a * Expansion(n, k - 1, a)
  {
    if k > 0 {
      ExpansionStep(n, k - 1, a);
      ExpansionSum(Binomial(n, k), Binomial(n, k - 1), Pow(a, k - 1), a,
        if k == 1 then 0 else Expansion(n, k - 2, a));
    }
  }

  lemma ExpansionSum(c: int, d: int, p: int, a: int, f: int)
    ensures (c + d) * (a * p) == c * (a * p) + a * (d * p + f) - a * f
  {
    MulDist(c, d, a * p);
    MulAssoc(d, a, p);
    MulAssoc(a, d, p);
    MulDist(d * p, f, a);
  }

  lemma {:induction false} BinomialTheorem(n: nat, a: int)
    ensures Pow(1 + a, n) == Expansion(n, n, a)
  {
    hide Binomial, Expansion;
    if n == 0 {
      ExpansionBase(0, a);
    } else {
      BinomialTheorem(n - 1, a);
      ExpansionStep(n - 1, n, a);
      NoTermBeyond(n - 1, a);
      MulDist(1, a, Pow(1 + a, n - 1));
    }
  }

  lemma NoTermBeyond(n: nat, a: int)
    ensures Expansion(n, n + 1, a) == Expansion(n, n, a)
  {
    BinomialTop(n, n + 1);
  }

  /** All inner terms of the expansion vanish modulo a prime exponent. */
  lemma {:induction false} InnerTermsVanish(p: nat, k: nat, a: int)
    requires Prime(p) && k < p
    ensures Cong(Expansion(p, k, a), 1, p)
  {
    hide Cong, Prime, Binomial, Pow;
    PrimePositive(p);
    if k == 0 {
      ExpansionBase(p, a);
      CongRefl(1, p);
    } else {
      InnerTermsVanish(p, k - 1, a);
      InnerTerm(p, k);
      CongScale(Binomial(p, k), 0, Pow(a, k), p);
      CongAdd(Binomial(p, k) * Pow(a, k), 0, Expansion(p, k - 1, a), 1, p);
    }
  }

  lemma ExpansionBase(n: nat, a: int)
    ensures Expansion(n, 0, a) == 1
  {}

  lemma InnerTerm(p: nat, k: nat)
    requires Prime(p) && 0 < k < p
    ensures Cong(Binomial(p, k), 0, p)
  {
    hide Cong, Prime, Binomial;
    PrimePositive(p);
    Absorption(p, k);
    CongIntro(k * Binomial(p, k), 0, Binomial(p - 1, k - 1), p);
    EuclidLemma(k, Binomial(p, k), p);
    CongZero(k, p);
    ModSmall(k, p);
  }

  lemma {:induction false} FermatPower(a: nat, p: nat)
    requires Prime(p)
    ensures Cong(Pow(a, p), a, p)
  {
    hide Cong, Prime, Pow, Expansion, Binomial;
    PrimePositive(p);
    if a == 0 {
      ZeroPower(p);
      CongRefl(0, p);
    } else {
      var b: nat := a - 1;
      FermatPower(b, p);
      BinomialTheorem(p, b);
      LastTerm(p, b);
      InnerTermsVanish(p, p - 1, b);
      CongAdd(Pow(b, p), b, Expansion(p, p - 1, b), 1, p);
    }
  }

  lemma ZeroPower(p: nat)
    requires p > 0
    ensures Pow(0, p) == 0
  {}

  lemma LastTerm(n: nat, a: int)
    requires n > 0
    ensures Expansion(n, n, a) == Pow(a, n) + Expansion(n, n - 1, a)
  {
    BinomialTop(n, n);
  }

  /** Fermat's little theorem. */
  lemma Fermat(a: nat, p: nat)
    requires Prime(p) && a % p != 0
    ensures Cong(Pow(a, p - 1), 1, p)
  {
    hide Cong, Prime, Pow;
    PrimePositive(p);
    FermatPower(a, p);
    PrimeCoprime(a, p);
    var x := InverseExists(a, p);
    PowAdd(a, p - 1, 1);
    PowOne(a);
    CongCancel(Pow(a, p - 1), 1, a, x, p);
  }

  // ---------- which powers a number divides ----------

  lemma QuotientByGcd(n: nat, a: nat)
    requires n > 0
    ensures Gcd(n, a) > 0 && n / Gcd(n, a) > 0 && n == n / Gcd(n, a) * Gcd(n, a)
    ensures Gcd(n, a) > 1 ==> 2 * (n / Gcd(n, a)) <= n
  {
    hide Gcd;
    GcdPositive(n, a);
    GcdDivides(n, a);
    var g := Gcd(n, a);
    var k :| n == k * g;
    DivModUnique(n, k, 0, g);
    if k <= 0 { MulMono(k, 0, g); }
    if g > 1 { MulMono(2, g, k); }
  }

  /** What is left of n when a cancels as much of it as it can, e times. */
  function Stripped(n: nat, a: nat, e: nat): (r: nat)
    requires n > 0
    ensures r > 0
    decreases e
  {
    QuotientByGcd(n, a);
    if e == 0 then n else Stripped(n / Gcd(n, a), a, e - 1)
  }

  /** One factor a cancels the gcd and nothing more. */
  lemma CancelFactor(n: nat, a: nat, b: int)
    requires n > 0
    ensures Gcd(n, a) > 0 && (Divides(n, a * b) <==> Divides(n / Gcd(n, a), b))
  {
    hide Gcd, Divides;
    QuotientByGcd(n, a);
    GcdDivides(n, a);
    var g := Gcd(n, a);
    var m := n / g;
    if Divides(n, a * b) {
      var x, y := Bezout(n, a);
      var k := TimesOf(n, a * b);
      CancelledFactor(n, a, b, x, y, k, m, g);
      DividesBy(m, b, b * x + k * y);
    }
    if Divides(m, b) {
      var k := TimesOf(m, b);
      var j := TimesOf(g, a);
      RestoredFactor(j, g, k, m);
      DividesBy(n, a * b, j * k);
    }
  }

  lemma TimesOf(d: int, n: int) returns (k: int)
    requires Divides(d, n)
    ensures n == k * d
  {
    k :| n == k * d;
  }

  lemma RestoredFactor(j: int, g: int, k: int, m: int)
    ensures (j * g) * (k * m) == (j * k) * (m * g)
  {
    MulSwap(j, g, k, m);
  }

  lemma CancelledFactor(n: int, a: int, b: int, x: int, y: int, k: int, m: int, g: int)
    requires n * x + a * y == g > 0 && a * b == k * n && n == m * g
    ensures b == (b * x + k * y) * m
  {
    var u, v := b * x, k * y;
    assert b * g == u * n + v * n by {
      MulDist(n * x, a * y, b);
      MulSwap(n, x, b, 1);
      MulSwap(a, y, b, 1);
      MulSwap(k, n, y, 1);
      assert n * x * b == u * n by { MulAssoc(b, x, n); MulAssoc(n, x, b); }
      assert a * y * b == v * n by { MulAssoc(a, b, y); MulAssoc(k, n, y); MulAssoc(k, y, n); MulAssoc(a, y, b); }
    }
    MulDist(u, v, n);
    MulAssoc(u + v, m, g);
    MulCancelLe(b, (u + v) * m, g);
    MulCancelLe((u + v) * m, b, g);
  }

  /** A power is a multiple of n exactly if its factors cancel all of n. */
  lemma {:induction false} PowerDivides(n: nat, a: nat, e: nat)
    requires n > 0
    ensures Divides(n, Pow(a, e)) <==> Stripped(n, a, e) == 1
    decreases e
  {
    hide Divides, Gcd;
    if e == 0 {
      DividesSelf(n);
      if Divides(n, 1) { DividesLe(n, 1); }
    } else {
      QuotientByGcd(n, a);
      CancelFactor(n, a, Pow(a, e - 1));
      PowerDivides(n / Gcd(n, a), a, e - 1);
    }
  }

  lemma {:induction false} NothingToStrip(n: nat, a: nat, e: nat)
    requires n > 0 && Gcd(n, a) == 1
    ensures Stripped(n, a, e) == n
    decreases e
  {
    hide Gcd;
    if e > 0 { NothingToStrip(n, a, e - 1); }
  }

  /** After as many steps as n has bits nothing changes any more. */
  lemma {:induction false} StrippingSettles(n: nat, a: nat, k: nat, e: nat)
    requires 0 < n < Pow2(k) && k <= e
    ensures Stripped(n, a, e) == 1 <==> Stripped(n, a, k) == 1
    decreases k
  {
    hide Gcd;
    QuotientByGcd(n, a);
    if Gcd(n, a) == 1 {
      NothingToStrip(n, a, e);
      NothingToStrip(n, a, k);
    } else if k > 0 {
      StrippingSettles(n / Gcd(n, a), a, k - 1, e - 1);
    }
  }

  /** A number of k bits divides some power exactly if it divides the k-th, and a number coprime
      to the base divides none but is 1. */
  lemma BoundedPower(n: nat, a: nat, k: nat, e: nat)
    requires 0 < n < Pow2(k)
    ensures Divides(n, Pow(a, e)) <==> Divides(n, Pow(a, if e < k then e else k))
    ensures Gcd(n, a) == 1 ==> (Divides(n, Pow(a, e)) <==> n == 1)
  {
    hide Divides, Gcd, Stripped, Pow;
    PowerDivides(n, a, e);
    PowerDivides(n, a, k);
    if k <= e { StrippingSettles(n, a, k, e); }
    if Gcd(n, a) == 1 { NothingToStrip(n, a, e); }
  }
}
