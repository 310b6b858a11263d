/** Dividing two limbs by one with half-word arithmetic (Knuth's Algorithm D), where every
    intermediate word is computed modulo the word size. */
module IntDiv {
  import opened Arith
  import opened Words
  import opened Limbs
  import opened MpiBits

  /** The estimate q is too large exactly when q * d exceeds the dividend. */
  lemma HalfTest(x: nat, u: nat, d1: nat, d0: nat, q: nat, r0: nat, h: nat)
    requires d1 * h + d0 > 0 && q * d1 + r0 == x
    ensures q * d0 > h * r0 + u <==> q > (x * h + u) / (d1 * h + d0)
  {
    MulDist(d1 * h, d0, q);
    MulAssoc(q, d1, h);
    MulDist(q * d1, r0, h);
    QuotientTest(x * h + u, d1 * h + d0, q);
  }

  /** The first estimate is at most one above the radix h. */
  lemma EstimateCap(x: nat, d1: nat, d0: nat, h: nat)
    requires h <= 2 * d1 && d0 < h && x < d1 * h + d0
    ensures d1 > 0 && 0 <= x / d1 <= h + 1
  {
    QuotientTest(x, d1, 0);
    MulDist(h, 2, d1);
    QuotientTest(x, d1, h + 2);
  }

  lemma EstimateFits(x: nat, u: nat, d: nat, h: nat)
    requires u < h && x < d
    ensures (x * h + u) / d < h
  {
    MulMono(x + 1, d, h);
    MulDist(x, 1, h);
    MulMono(0, x, h);
    DivLess(x * h + u, d, h);
  }

  /** The estimate is never too small. */
  lemma EstimateHigh(x: nat, u: nat, d1: nat, d0: nat, h: nat)
    requires d1 > 0 && u < h && d1 * h + d0 > 0
    ensures (x * h + u) / (d1 * h + d0) <= x / d1
  {
    var n, d := x * h + u, d1 * h + d0;
    var q := n / d;
    MulMono(0, x, h);
    QuotientTest(n, d, q);
    QuotientTest(n, d, 0);
    DivModFacts(n, d);
    MulMono(0, q, d0);
    MulDist(d1 * h, d0, q);
    MulAssoc(q, d1, h);
    MulDist(x, 1, h);
    MulCancelLt(q * d1, x + 1, h);
    QuotientTest(x, d1, q);
  }

  /** Leaving the correction loop because the remainder outgrew a half word is safe. */
  lemma HalfBreak(x: nat, u: nat, d1: nat, d0: nat, q: nat, r0: nat, h: nat)
    requires d1 * h + d0 > 0 && d0 < h && q * d1 + r0 == x && r0 >= h && q <= h
    ensures q <= (x * h + u) / (d1 * h + d0)
  {
    MulMono(q, h, d0);
    MulStrict(d0, h, h);
    MulMono(h, r0, h);
    HalfTest(x, u, d1, d0, q, r0, h);
  }

  lemma HalvesFit(y: nat, x: nat, h: nat)
    requires x < h && y < h
    ensures 0 <= x * y < h * h && 0 <= h * x && h * x + y < h * h
  {
    MulMono(0, x, y);
    MulMono(0, x, h);
    MulMono(x, h, y);
    MulStrict(y, h, h);
    MulMono(x, h - 1, h);
    MulDist(h, 1, h);
  }

  lemma HalfProducts(q: Limb, d0: Limb, r0: Limb, u: Limb)
    requires q < H && d0 < H && r0 < H && u < H
    ensures MulW(q, d0) == q * d0 && AddW(MulW(H, r0), u) == H * r0 + u
  {
    hide Pow2;
    assert B == H * H by { WordFacts(); }
    HalvesFit(d0, q, H);
    HalvesFit(u, r0, H);
    ModSmall(q * d0, B);
    ModSmall(H * r0, B);
    ModSmall(H * r0 + u, B);
  }

  /** One half-word digit of the quotient: estimate from the top half of the divisor, then
      correct downwards. */
  method HalfDigit(x: Limb, u: Limb, d1: Limb, d0: Limb) returns (q: Limb)
    requires H <= 2 * d1 && d1 < H && d0 < H && u < H && x < d1 * H + d0
    ensures q == (x * H + u) / (d1 * H + d0) && q < H
  {
    hide *;
    WordFacts();
    EstimateCap(x, d1, d0, H);
    EstimateFits(x, u, d1 * H + d0, H);
    EstimateHigh(x, u, d1, d0, H);
    DivModFacts(x, d1);
    ghost var Q := (x * H + u) / (d1 * H + d0);
    q := x / d1;
    assert d1 * q == x - x % d1;
    var r0: Limb := x - d1 * q;
    while q >= H || MulW(q, d0) > AddW(MulW(H, r0), u)
      invariant q * d1 + r0 == x && Q <= q <= H + 1 && r0 < H
      decreases q
    {
      if q < H { HalfProducts(q, d0, r0, u); }
      HalfTest(x, u, d1, d0, q, r0, H);
      MulDist(q, 1, d1);
      q := q - 1;
      r0 := r0 + d1;
      if r0 >= H {
        HalfBreak(x, u, d1, d0, q, r0, H);
        return;
      }
    }
    HalfProducts(q, d0, r0, u);
    HalfTest(x, u, d1, d0, q, r0, H);
  }

  /** a + (u - c), each part reduced modulo b on the way. */
  lemma ReducedOnTheWay(a: int, u: int, c: int, b: nat)
    requires b > 0 && 0 <= a + u - c < b
    ensures (a % b + (u - c % b) % b) % b == a + u - c
  {
    CongMod(a, b);
    CongMod(c, b);
    CongNeg(c % b, c, b);
    CongAdd(u, u, -(c % b), -c, b);
    CongMod(u - c % b, b);
    CongAdd(a % b, a, (u - c % b) % b, u - c, b);
    ModSmall(a + u - c, b);
  }

  lemma ReducedSum(a: int, c: int, u: Limb, a': Limb, c': Limb)
    requires 0 <= a + u - c < B && a' == a % B && c' == c % B
    ensures AddW(a', SubW(u, c')) == a + u - c
  {
    hide Pow2;
    ReducedOnTheWay(a, u, c, B);
  }

  lemma ReducedW(x: Limb, y: Limb, u: Limb, q: Limb, d: Limb)
    requires 0 <= x * y + u - q * d < B
    ensures AddW(MulW(x, y), SubW(u, MulW(q, d))) == x * y + u - q * d
  {
    hide Pow2, AddW, SubW;
    ReducedSum(x * y, q * d, u, MulW(x, y), MulW(q, d));
  }

  lemma RestOf(n: int, d: int, q: int)
    requires d > 0 && q == n / d
    ensures n - q * d == n % d && 0 <= n % d < d
  {}

  /** What is left after one half-word digit, as the code computes it modulo B. */
  lemma HalfRemainder(x: Limb, u: Limb, d: Limb, q: Limb)
    requires d > 0 && q == (x * H + u) / d
    ensures AddW(MulW(x, H), SubW(u, MulW(q, d))) == (x * H + u) % d
  {
    hide *;
    RestOf(x * H + u, d, q);
    ReducedW(x, H, u, q, d);
  }

  /** Two quotient digits and two remainders make one division. */
  lemma TwoDigits(u1: nat, u0: nat, uh: nat, ul: nat, d: nat, h: nat, b: nat, q1: nat, r: nat, q0: nat)
    requires d > 0 && b == h * h && u0 == uh * h + ul
    requires q1 == (u1 * h + uh) / d && r == (u1 * h + uh) % d && q0 == (r * h + ul) / d
    ensures (u1 * b + u0) / d == q1 * h + q0 && (u1 * b + u0) % d == (r * h + ul) % d
  {
    DivModFacts(u1 * h + uh, d);
    TwoDigitsSum(u1, uh, ul, q1, r, d, h);
    DivModShift(q1 * h, r * h + ul, d);
  }

  lemma TwoDigitsSum(u1: int, uh: int, ul: int, q: int, r: int, d: int, h: int)
    requires u1 * h + uh == d * q + r
    ensures u1 * (h * h) + (uh * h + ul) == q * h * d + (r * h + ul)
  {
    MulAssoc(u1, h, h);
    MulDist(u1 * h, uh, h);
    MulDist(d * q, r, h);
    MulAssoc(d, q, h);
  }

  /** Scaling dividend and divisor scales the remainder and keeps the quotient. */
  lemma ScaledDivision(n: nat, d: nat, p: nat)
    requires d > 0 && p > 0
    ensures d * p > 0 && n * p >= 0
    ensures n * p / (d * p) == n / d && n * p % (d * p) == n % d * p
  {
    MulPos(d, p);
    DivModFacts(n, d);
    MulDist(d * (n / d), n % d, p);
    MulAssoc(n / d, d, p);
    MulStrict(n % d, d, p);
    MulMono(0, n % d, p);
    DivModUnique(n * p, n / d, n % d * p, d * p);
  }

  /** The normalising shift of the divisor. */
  lemma NormalisedDivisor(d: Limb, s: nat)
    requires d > 0 && s <= biL && BitLen(d) == biL - s
    ensures s < biL && d * Pow2(s) < B && ShlW(d, s) == d * Pow2(s) && B <= 2 * ShlW(d, s)
  {
    hide Pow2, BitLen;
    BitLenBounds(d);
    Pow2Add(BitLen(d), s);
    Pow2Add(BitLen(d) - 1, s);
    Pow2Add(1, biL - 1);
    Pow2Values();
    MulStrict(d, Pow2(BitLen(d)), Pow2(s));
    MulMono(Pow2(BitLen(d) - 1), d, Pow2(s));
    ModSmall(d * Pow2(s), B);
  }

  lemma ScaledPair(u1: nat, u0: nat, d: nat, p: nat, hi: nat, lo: nat, b: nat)
    requires u1 < d && hi < p && u0 * p == lo + hi * b
    ensures u1 * p + hi < d * p
    ensures (u1 * p + hi) * b + lo == (u1 * b + u0) * p
  {
    MulMono(u1 + 1, d, p);
    MulDist(u1, 1, p);
    MulDist(u1 * p, hi, b);
    MulDist(u1 * b, u0, p);
    MulAssoc(u1, p, b);
    MulAssoc(u1, b, p);
  }

  /** The normalising shift of the dividend. */
  lemma NormalisedDividend(u1: Limb, u0: Limb, d: Limb, s: nat)
    requires u1 < d && s < biL && d * Pow2(s) < B
    ensures var v := ShlW(u1, s) + (if s == 0 then 0 else ShrW(u0, biL - s));
            v < d * Pow2(s) && v * B + ShlW(u0, s) == (u1 * B + u0) * Pow2(s)
  {
    hide *;
    assert ShlW(u1, s) == u1 * Pow2(s) by { ShlFits(u1, d, s); }
    var hi: Limb := if s == 0 then 0 else ShrW(u0, biL - s);
    HighPart(u0, s, hi);
    ScaledPair(u1, u0, d, Pow2(s), hi, ShlW(u0, s), B);
  }

  /** Nothing is shifted out of a word below a divisor that can be shifted. */
  lemma ShlFits(u: Limb, d: Limb, s: nat)
    requires u <= d && d * Pow2(s) < B
    ensures ShlW(u, s) == u * Pow2(s)
  {
    hide Pow2;
    MulMono(u, d, Pow2(s));
    MulMono(0, u, Pow2(s));
    ModSmall(u * Pow2(s), B);
  }

  /** The bits that a shift moves out of a word. */
  lemma HighPart(u: Limb, s: nat, hi: Limb)
    requires s < biL && hi == if s == 0 then 0 else ShrW(u, biL - s)
    ensures u * Pow2(s) == ShlW(u, s) + hi * B && hi < Pow2(s)
  {
    hide Pow2, ShlW;
    Pow2Values();
    if s == 0 {
      ShlFits(u, u, 0);
    } else {
      ShlSplit(u, s);
    }
  }

  /** The low half of a word, by a mask. */
  function LowHalf(x: Limb): (r: Limb)
    ensures r < H && HighHalfOf(x) < H && x == HighHalfOf(x) * H + r
  {
    SplitHalves(x);
    BitAnd(x, H - 1)
  }

  lemma SplitHalves(x: Limb)
    ensures x == ShrW(x, biH) * H + BitAnd(x, H - 1)
    ensures 0 <= ShrW(x, biH) < H && 0 <= BitAnd(x, H - 1) < H
  {
    hide Pow2, BitAnd;
    WordFacts();
    AndMask(x, biH);
    DivModFacts(x, H);
    DivLess(x, H, H);
  }

  /** floor((u1 * B + u0) / d) and the remainder; all ones when the quotient would not fit
      or d is 0. */
  method IntDivInt(u1: Limb, u0: Limb, d: Limb) returns (quotient: Limb, r: Limb)
    ensures d == 0 || u1 >= d ==> quotient == B - 1 && r == B - 1
    ensures u1 < d ==> quotient == (u1 * B + u0) / d && r == (u1 * B + u0) % d
  {
    hide Pow2, ShlW, ShrW, BitLen;
    WordFacts();
    if 0 == d || u1 >= d { return B - 1, B - 1; }
    var s := Clz(d);
    NormalisedDivisor(d, s);
    NormalisedDividend(u1, u0, d, s);
    quotient, r := NormalisedDiv(u1, u0, d, s);
  }

  /** u1 << s, with the bits that leave u0 or-ed in below. The mask -s >> (biL - 1) is all ones but
      for s = 0; there the shift by biL is undefined in C, so any word may come out of it, and the
      mask takes it away. */
  method ShiftIn(u1: Limb, u0: Limb, s: nat) returns (v: Limb)
    requires s < biL && u1 * Pow2(s) < B
    ensures v == ShlW(u1, s) + (if s == 0 then 0 else ShrW(u0, biL - s))
  {
    hide Pow2, BitAnd, BitOr, ShlW, ShrW;
    var moved: Limb := *;
    if s != 0 { moved := ShrW(u0, biL - s); }
    var mask: Limb := if s == 0 then 0 else B - 1;
    AndOnes(moved);
    OrZero(moved);
    ghost var hi: Limb := if s == 0 then 0 else ShrW(u0, biL - s);
    assert BitAnd(moved, mask) == hi;
    HighPart(u0, s, hi);
    ShiftedIn(u1, s, hi);
    v := BitOr(ShlW(u1, s), BitAnd(moved, mask));
  }

  lemma ShiftedIn(u: Limb, s: nat, hi: Limb)
    requires s < biL && u * Pow2(s) < B && hi < Pow2(s)
    ensures BitOr(ShlW(u, s), hi) == ShlW(u, s) + hi < B
  {
    hide Pow2, BitOr;
    MulMono(0, u, Pow2(s));
    ModSmall(u * Pow2(s), B);
    DivModUnique(u * Pow2(s), u, 0, Pow2(s));
    OrIsAdd(ShlW(u, s), hi, s);
    Pow2Mono(s, biL);
    OrBounds(ShlW(u, s), hi, biL);
  }

  method NormalisedDiv(u1: Limb, u0: Limb, d: Limb, s: nat) returns (quotient: Limb, r: Limb)
    requires u1 < d && s < biL && d * Pow2(s) < B
    requires ShlW(d, s) == d * Pow2(s) && B <= 2 * ShlW(d, s)
    requires var v := ShlW(u1, s) + (if s == 0 then 0 else ShrW(u0, biL - s));
             v < d * Pow2(s) && v * B + ShlW(u0, s) == (u1 * B + u0) * Pow2(s)
    ensures quotient == (u1 * B + u0) / d && r == (u1 * B + u0) % d
  {
    hide Pow2, ShlW, ShrW;
    ghost var n := u1 * B + u0;
    MulMono(u1, d, Pow2(s));
    var dn: Limb := ShlW(d, s);
    var v1 := ShiftIn(u1, u0, s);
    var v0: Limb := ShlW(u0, s);
    MulMono(0, u1, B);
    ScaledDivision(n, d, Pow2(s));
    var q, rn := HalvesDiv(v1, v0, dn);
    quotient := q;
    r := UnscaleRemainder(rn, n, d, s);
  }

  /** Division by a divisor whose top bit is set, one half word at a time. */
  method HalvesDiv(v1: Limb, v0: Limb, d: Limb) returns (quotient: Limb, r: Limb)
    requires v1 < d && B <= 2 * d
    ensures quotient == (v1 * B + v0) / d && r == (v1 * B + v0) % d
  {
    hide *;
    var d1, d0 := HighHalfOf(d), LowHalf(d);
    var v0h, v0l := HighHalfOf(v0), LowHalf(v0);
    assert H <= 2 * d1 && d1 < H by {
      WordFacts();
      TopHalf(d1, d0, H);
    }
    assert B == H * H by { WordFacts(); }
    var q1 := HalfDigit(v1, v0h, d1, d0);
    var rAX: Limb := AddW(MulW(v1, H), SubW(v0h, MulW(q1, d)));
    assert rAX == (v1 * H + v0h) % d && rAX < d by {
      HalfRemainder(v1, v0h, d, q1);
      DivModFacts(v1 * H + v0h, d);
    }
    var q0 := HalfDigit(rAX, v0l, d1, d0);
    r := AddW(MulW(rAX, H), SubW(v0l, MulW(q0, d)));
    quotient := AddW(MulW(H, q1), q0);
    TwoDigits(v1, v0, v0h, v0l, d, H, B, q1, rAX, q0);
    assert quotient == q1 * H + q0 by { HalfProducts(q1, 0, q1, q0); }
    HalfRemainder(rAX, v0l, d, q0);
  }

  lemma TopHalf(d1: nat, d0: nat, h: nat)
    requires h * h <= 2 * (d1 * h + d0) && d0 < h && h % 2 == 0
    ensures h <= 2 * d1
  {
    if 2 * d1 <= h - 2 {
      MulMono(2 * d1, h - 2, h);
      MulDist(h, 2, h);
      MulAssoc(2, d1, h);
    }
  }

  method UnscaleRemainder(rn: Limb, ghost n: nat, d: Limb, s: nat) returns (r: Limb)
    requires d > 0 && rn == n % d * Pow2(s)
    ensures r == n % d
  {
    DivModUnique(rn, n % d, 0, Pow2(s));
    r := ShrW(rn, s);
  }
}
