/** Binary greatest common divisor (HAC 14.54) and modular inverse (HAC 14.61). */
module MpiGcd {
  import opened Arith
  import opened Words
  import opened Limbs
  import opened Divisors
  import opened Mpis
  import opened MpiArith
  import opened MpiBits
  import opened MpiShift
  import opened MpiDiv
  import opened MpiMod

  /** n without its factors of two. */
  function OddPart(n: nat): nat {
    n / Pow2(TrailingZeros(n))
  }

  lemma OddPartFacts(n: nat)
    ensures OddPart(n) <= n && (n > 0 ==> OddPart(n) % 2 == 1 && OddPart(n) > 0)
    ensures OddPart(n) * Pow2(TrailingZeros(n)) == n
    ensures n % 2 == 1 ==> OddPart(n) == n
    ensures OddPart(0) == 0
  {
    hide Pow2;
    Pow2Values();
    if n > 0 {
      TrailingZerosSplit(n);
      MulMono(1, Pow2(TrailingZeros(n)), OddPart(n));
    }
  }

  lemma OddPartHalf(n: nat)
    ensures OddPart(2 * n) == OddPart(n)
  {
    if n > 0 {
      var t := TrailingZeros(n);
      assert TrailingZeros(2 * n) == t + 1;
      TrailingZerosSplit(n);
      DivDiv(2 * n, 2, Pow2(t));
    }
  }

  /** gcd of the odd parts of a and b: what the loop keeps. */
  function OddGcd(a: nat, b: nat): nat { Gcd(OddPart(a), OddPart(b)) }

  /** Against an odd number, factors of two do not matter. */
  lemma OddGcdOdd(a: nat, b: nat)
    requires b % 2 == 1
    ensures OddGcd(a, b) == Gcd(a, b)
  {
    hide Gcd, OddPart, Pow2;
    OddPartFacts(a);
    OddPartFacts(b);
    GcdShift(OddPart(a), b, TrailingZeros(a));
  }

  /** Subtracting one odd number from another and halving. */
  lemma OddGcdStep(a: nat, b: nat)
    requires a % 2 == 1 && b % 2 == 1 && a >= b
    ensures (a - b) % 2 == 0 && OddGcd((a - b) / 2, b) == OddGcd(a, b)
    ensures OddGcd(b, (a - b) / 2) == OddGcd(b, a)
  {
    hide Gcd, OddPart;
    var h := (a - b) / 2;
    assert a - b == 2 * h;
    OddPartHalf(h);
    OddGcdOdd(a - b, b);
    OddGcdOdd(a, b);
    GcdSub(a, b);
    GcdComm(OddPart(h), OddPart(b));
    GcdComm(OddPart(a), OddPart(b));
  }

  function Min(a: nat, b: nat): nat { if a < b then a else b }

  /** The gcd is the gcd of the odd parts times the common power of two. */
  lemma GcdByParts(a: nat, b: nat)
    requires a > 0 && b > 0
    ensures Gcd(a, b) == OddGcd(a, b) * Pow2(Min(TrailingZeros(a), TrailingZeros(b)))
  {
    hide Gcd, OddPart, Pow2;
    if TrailingZeros(a) < TrailingZeros(b) {
      GcdComm(a, b);
      GcdComm(OddPart(a), OddPart(b));
      GcdByPartsOrdered(b, a);
    } else {
      GcdByPartsOrdered(a, b);
    }
  }

  lemma GcdByPartsOrdered(a: nat, b: nat)
    requires a > 0 && b > 0 && TrailingZeros(a) >= TrailingZeros(b)
    ensures Gcd(a, b) == OddGcd(a, b) * Pow2(TrailingZeros(b))
  {
    hide Gcd, OddPart, Pow2;
    var s, t := TrailingZeros(a), TrailingZeros(b);
    OddPartFacts(a);
    OddPartFacts(b);
    Pow2Add(s - t, t);
    MulAssoc(OddPart(a), Pow2(s - t), Pow2(t));
    GcdShift(OddPart(a), OddPart(b), s - t);
    GcdScale(OddPart(a) * Pow2(s - t), OddPart(b), Pow2(t));
  }

  lemma GcdZeroLeft(b: nat)
    ensures Gcd(0, b) == b
  {
    GcdComm(0, b);
  }

  /** Strip the trailing zeros of x. */
  method MakeOdd(x: Mpi)
    requires x.Valid() && x.s == 1 && x.Mag() > 0
    modifies x, x.p
    ensures x.p == old(x.p) || fresh(x.p)
    ensures x.Valid() && x.s == 1 && x.Mag() == OddPart(old(x.Mag()))
    ensures x.Mag() % 2 == 1 && x.Mag() <= old(x.Mag())
  {
    hide Nat, BPow, Pow2, TrailingZeros;
    OddPartFacts(x.Mag());
    var t := Lsb(x);
    ShiftR(x, t);
  }

  /** x = |x - y| / 2 for odd x >= y. */
  method SubHalve(x: Mpi, y: Mpi)
    requires x.Valid() && y.Valid() && x.s == 1 && y.s == 1 && x != y && x.p != y.p
    requires x.Mag() >= y.Mag() && x.Mag() % 2 == 1 && y.Mag() % 2 == 1
    modifies x, x.p
    ensures x.p == old(x.p) || fresh(x.p)
    ensures x.Valid() && x.s == 1 && x.Mag() == (old(x.Mag()) - y.Mag()) / 2
  {
    hide Nat, BPow, Pow2;
    Pow2Values();
    var ret := SubAbs(x, x, y);
    ShiftR(x, 1);
  }

  /** One pass of the loop: make both odd, then replace the larger by half the difference. */
  method ReduceStep(ta: Mpi, tb: Mpi)
    requires ta.Valid() && tb.Valid() && ta.s == 1 && tb.s == 1 && ta != tb && ta.p != tb.p
    requires ta.Mag() > 0 && tb.Mag() > 0
    modifies ta, ta.p, tb, tb.p
    ensures ta.p == old(ta.p) || fresh(ta.p)
    ensures tb.p == old(tb.p) || fresh(tb.p)
    ensures ta.p != tb.p && ta.Valid() && tb.Valid() && ta.s == 1 && tb.s == 1 && tb.Mag() > 0
    ensures ta.Mag() % 2 == 1 || tb.Mag() % 2 == 1
    ensures OddGcd(ta.Mag(), tb.Mag()) == OddGcd(old(ta.Mag()), old(tb.Mag()))
    ensures ta.Mag() + tb.Mag() < old(ta.Mag() + tb.Mag())
  {
    hide Nat, BPow, Pow2, OddPart, OddGcd;
    OddGcdOfOddParts(ta.Mag(), tb.Mag());
    MakeOdd(ta);
    MakeOdd(tb);
    var d := CmpMpi(ta, tb);
    if d >= 0 {
      OddGcdStep(ta.Mag(), tb.Mag());
      SubHalve(ta, tb);
    } else {
      OddGcdStep(tb.Mag(), ta.Mag());
      SubHalve(tb, ta);
    }
  }

  /** The reduction loop: the odd gcd ends up in tb. */
  method OddReduce(ta: Mpi, tb: Mpi)
    requires ta.Valid() && tb.Valid() && ta.s == 1 && tb.s == 1 && ta != tb && ta.p != tb.p && tb.Mag() > 0
    modifies ta, ta.p, tb, tb.p
    ensures tb.Valid() && tb.s == 1 && (tb.p == old(tb.p) || fresh(tb.p))
    ensures tb.Mag() == if old(ta.Mag()) == 0 then old(tb.Mag()) else OddGcd(old(ta.Mag()), old(tb.Mag()))
  {
    hide Nat, BPow, Pow2, OddPart, OddGcd;
    WordFacts();
    ghost var first, g := true, OddGcd(ta.Mag(), tb.Mag());
    var c := CmpInt(ta, 0);
    while c != 0
      invariant ta.p == old(ta.p) || fresh(ta.p)
      invariant tb.p == old(tb.p) || fresh(tb.p)
      invariant ta.p != tb.p && ta.Valid() && tb.Valid() && ta.s == 1 && tb.s == 1 && tb.Mag() > 0
      invariant c == Sign(ta.Mag()) && OddGcd(ta.Mag(), tb.Mag()) == g
      invariant if first then ta.Mag() == old(ta.Mag()) && tb.Mag() == old(tb.Mag())
                else old(ta.Mag()) > 0 && (ta.Mag() % 2 == 1 || tb.Mag() % 2 == 1)
      decreases ta.Mag() + tb.Mag()
    {
      ReduceStep(ta, tb);
      first := false;
      c := CmpInt(ta, 0);
    }
    OddGcdZero(tb.Mag());
  }

  lemma OddGcdOfOddParts(a: nat, b: nat)
    ensures OddGcd(OddPart(a), OddPart(b)) == OddGcd(a, b)
  {
    hide Gcd, OddPart;
    OddPartFacts(a);
    OddPartFacts(b);
    OddPartFacts(OddPart(a));
    OddPartFacts(OddPart(b));
    if a == 0 { OddPartFacts(0); }
  }

  lemma OddGcdZero(b: nat)
    ensures OddGcd(0, b) == OddPart(b)
    ensures b % 2 == 1 ==> OddPart(b) == b
  {
    hide Gcd, OddPart;
    OddPartFacts(0);
    OddPartFacts(b);
    GcdZeroLeft(OddPart(b));
  }

  /** What gcd leaves in its output: for b = 0 a copy of a, sign included. */
  function GcdResult(a: int, b: int): int {
    if b == 0 then a else Gcd(Abs(a), Abs(b))
  }

  /** The result is the greatest common divisor unless b is 0 and a negative. */
  lemma GcdResultCorrect(a: int, b: int)
    ensures GcdResult(a, b) == Gcd(Abs(a), Abs(b)) <==> (b != 0 || a >= 0)
  {}

  /** gcd(-3, 0) comes out as -3. */
  lemma GcdNegativeCopy()
    ensures GcdResult(-3, 0) == -3 && Gcd(Abs(-3), Abs(0)) == 3
  {}

  /** tb = gcd(|ta|, |tb|), given the common power of two. */
  method BinaryGcd(ta: Mpi, tb: Mpi, lz: nat)
    requires ta.Valid() && tb.Valid() && ta != tb && ta.p != tb.p && tb.Mag() > 0
    requires lz == Min(TrailingZeros(ta.Mag()), TrailingZeros(tb.Mag()))
    modifies ta, ta.p, tb, tb.p
    ensures tb.p == old(tb.p) || fresh(tb.p)
    ensures tb.Valid() && tb.s == 1 && tb.Mag() == Gcd(old(ta.Mag()), old(tb.Mag())) && tb.Mag() > 0
  {
    hide Nat, BPow, Pow2, OddPart, TrailingZeros, Gcd, OddGcd;
    GcdAssembled(ta.Mag(), tb.Mag(), lz);
    GcdPositive(ta.Mag(), tb.Mag());
    ta.s, tb.s := 1, 1;
    OddReduce(ta, tb);
    ShiftL(tb, lz);
  }

  /** Copies of a and b, and the number of factors of two they share. */
  method GcdSetup(a: Mpi, b: Mpi) returns (ta: Mpi, tb: Mpi, lz: nat, zero: bool)
    requires a.Valid() && b.Valid()
    ensures fresh(ta) && fresh(tb) && fresh(ta.p) && fresh(tb.p) && ta != tb && ta.p != tb.p
    ensures ta.Valid() && tb.Valid() && ta.Mag() == a.Mag() && tb.Mag() == b.Mag()
    ensures lz == Min(TrailingZeros(a.Mag()), TrailingZeros(b.Mag())) && (zero <==> b.Mag() == 0)
  {
    hide Nat, BPow, Pow2, TrailingZeros;
    ta := new Mpi();
    tb := new Mpi();
    Copy(ta, a);
    Copy(tb, b);
    lz := Lsb(ta);
    var lzt := Lsb(tb);
    var bit := GetBit(tb, 0);
    LowBitOfZero(tb.Mag());
    zero := lzt == 0 && bit == 0;
    if lzt < lz { lz := lzt; }
  }

  /** g may be a or b. */
  method GcdMpi(g: Mpi, a: Mpi, b: Mpi)
    requires g.Valid() && a.Valid() && b.Valid() && Apart(g, a)
    modifies g, g.p
    ensures g.p == old(g.p) || fresh(g.p)
    ensures g.Valid() && g.Val() == GcdResult(old(a.Val()), old(b.Val()))
  {
    hide Nat, BPow, Pow2, TrailingZeros, Gcd;
    var ta, tb, lz, zero := GcdSetup(a, b);
    if zero {
      Copy(g, a);
    } else {
      BinaryGcd(ta, tb, lz);
      Copy(g, tb);
    }
  }

  lemma LowBitOfZero(n: nat)
    ensures TrailingZeros(n) == 0 && n / Pow2(0) % 2 == 0 <==> n == 0
  {
    Pow2Values();
  }

  lemma GcdAssembled(a: nat, b: nat, lz: nat)
    requires b > 0 && lz == Min(TrailingZeros(a), TrailingZeros(b))
    ensures (if a == 0 then b else OddGcd(a, b)) * Pow2(lz) == Gcd(a, b)
  {
    hide Gcd, OddPart, Pow2;
    if a == 0 {
      Pow2Values();
      GcdZeroLeft(b);
    } else {
      GcdByParts(a, b);
    }
  }

  // ---------- inv_mod ----------

  /** One column of the extended algorithm: t is the combination u1 * A + u2 * N. */
  ghost predicate Column(t: Mpi, u1: Mpi, u2: Mpi, a: int, n: int)
    reads t, t.p, u1, u1.p, u2, u2.p
  {
    Unshared(t, u1, u2) && u1.Val() * a + u2.Val() * n == t.Val()
  }

  ghost predicate Unshared(t: Mpi, u1: Mpi, u2: Mpi)
    reads t, t.p, u1, u1.p, u2, u2.p
  {
    t.Valid() && u1.Valid() && u2.Valid() && u1.p.Length > 0 && u2.p.Length > 0
    && t.p != u1.p && t.p != u2.p && u1.p != u2.p && t != u1 && t != u2 && u1 != u2
  }

  /** With a and n not both even, adding n to one cofactor and taking a off the other makes
      both even whenever one of them is odd. */
  lemma ParityFix(a: int, n: int, u: int, v: int, t: int)
    requires u * a + v * n == t && t % 2 == 0 && (a % 2 == 1 || n % 2 == 1)
    ensures (u % 2 == 1 || v % 2 == 1) ==> (u + n) % 2 == 0 && (v - a) % 2 == 0
    ensures (u + n) * a + (v - a) * n == t
  {
    MulDist(u, n, a);
    MulDist(v, a, n);
    ParityOfProduct(u, a);
    ParityOfProduct(v, n);
  }

  lemma ParityOfProduct(x: int, y: int)
    ensures (x * y) % 2 == (x % 2) * (y % 2)
  {
    CongMod(x, 2);
    CongMod(y, 2);
    CongMul(x % 2, x, y % 2, y, 2);
    CongIs((x % 2) * (y % 2), x * y, 2);
    assert x % 2 == 0 || x % 2 == 1;
    assert y % 2 == 0 || y % 2 == 1;
  }

  lemma HalvedCombination(a: int, n: int, u: int, v: int, t: int)
    requires u * a + v * n == t && u % 2 == 0 && v % 2 == 0 && t % 2 == 0
    ensures u / 2 * a + v / 2 * n == t / 2
  {
    MulAssoc(2, u / 2, a);
    MulAssoc(2, v / 2, n);
    MulDist(2, 0, u / 2 * a);
  }

  /** Halving an even MPI of either sign. */
  method Halve(x: Mpi)
    requires x.Valid() && x.Val() % 2 == 0 && x.p.Length > 0
    modifies x, x.p
    ensures x.p == old(x.p) || fresh(x.p)
    ensures x.Valid() && x.Val() == old(x.Val()) / 2 && x.p.Length > 0
  {
    hide Nat, BPow, Pow2;
    Pow2Values();
    WordFacts();
    ShiftR(x, 1);
  }

  method IsOdd(x: Mpi) returns (odd: bool)
    requires x.p.Length > 0
    ensures odd <==> x.Val() % 2 == 1
  {
    hide Nat, BPow;
    NatParity(x.p[..]);
    odd := x.p[0] % 2 != 0;
  }

  /** Make both cofactors of the even number t even. */
  method FixParity(u1: Mpi, u2: Mpi, ta: Mpi, tb: Mpi, ghost t: int)
    requires u1.Valid() && u2.Valid() && u1 != u2 && u1.p != u2.p && u1.p.Length > 0 && u2.p.Length > 0
    requires ta.Valid() && tb.Valid() && (ta.Val() % 2 == 1 || tb.Val() % 2 == 1)
    requires {ta, tb} !! {u1, u2} && {ta.p, tb.p} !! {u1.p, u2.p}
    requires u1.Val() * ta.Val() + u2.Val() * tb.Val() == t && t % 2 == 0
    modifies u1, u2, u1.p, u2.p
    ensures u1.p == old(u1.p) || fresh(u1.p)
    ensures u2.p == old(u2.p) || fresh(u2.p)
    ensures u1.Valid() && u2.Valid() && u1.p != u2.p && u1.p.Length > 0 && u2.p.Length > 0
    ensures u1.Val() * ta.Val() + u2.Val() * tb.Val() == t
    ensures u1.Val() % 2 == 0 && u2.Val() % 2 == 0
  {
    hide Nat, BPow;
    ParityFix(ta.Val(), tb.Val(), u1.Val(), u2.Val(), t);
    var o1 := IsOdd(u1);
    var o2 := IsOdd(u2);
    if o1 || o2 {
      AddMpi(u1, u1, tb);
      SubMpi(u2, u2, ta);
    }
  }

  /** Halve t, and fix up and halve its cofactors. */
  method HalveColumn(t: Mpi, u1: Mpi, u2: Mpi, ta: Mpi, tb: Mpi)
    requires Column(t, u1, u2, ta.Val(), tb.Val()) && t.Val() % 2 == 0 && t.p.Length > 0
    requires ta.Valid() && tb.Valid() && (ta.Val() % 2 == 1 || tb.Val() % 2 == 1)
    requires {ta, tb} !! {t, u1, u2} && {ta.p, tb.p} !! {t.p, u1.p, u2.p}
    modifies t, u1, u2, t.p, u1.p, u2.p
    ensures t.p == old(t.p) || fresh(t.p)
    ensures u1.p == old(u1.p) || fresh(u1.p)
    ensures u2.p == old(u2.p) || fresh(u2.p)
    ensures Column(t, u1, u2, ta.Val(), tb.Val()) && t.Val() == old(t.Val()) / 2 && t.p.Length > 0
  {
    hide Nat, BPow;
    ghost var a, n, tv := ta.Val(), tb.Val(), t.Val();
    Halve(t);
    FixParity(u1, u2, ta, tb, tv);
    HalvedCombination(a, n, u1.Val(), u2.Val(), tv);
    Halve(u1);
    Halve(u2);
  }

  /** Coprime numbers are not both even. */
  lemma CoprimeOdd(a: nat, b: nat)
    requires Gcd(a, b) == 1
    ensures a % 2 == 1 || b % 2 == 1
  {
    if a % 2 == 0 && b % 2 == 0 {
      GcdScale(a / 2, b / 2, 2);
    }
  }

  lemma HalfStaysCoprime(t: nat, other: nat)
    requires t % 2 == 0 && Gcd(t, other) == 1
    ensures Gcd(t / 2, other) == 1
  {
    GcdDivides(t / 2, other);
    DividesTrans(Gcd(t / 2, other), t / 2, t) by { DividesBy(t / 2, t, 2); }
    GcdDivisorOfCoprime(t, other, t / 2, other);
  }

  /** Halve the column until its number is odd. */
  method OddColumn(t: Mpi, u1: Mpi, u2: Mpi, ta: Mpi, tb: Mpi, ghost other: nat)
    requires Column(t, u1, u2, ta.Val(), tb.Val()) && t.Val() > 0 && Gcd(t.Val(), other) == 1
    requires ta.Valid() && tb.Valid() && (ta.Val() % 2 == 1 || tb.Val() % 2 == 1)
    requires {ta, tb} !! {t, u1, u2} && {ta.p, tb.p} !! {t.p, u1.p, u2.p}
    modifies t, u1, u2, t.p, u1.p, u2.p
    ensures t.p == old(t.p) || fresh(t.p)
    ensures u1.p == old(u1.p) || fresh(u1.p)
    ensures u2.p == old(u2.p) || fresh(u2.p)
    ensures Column(t, u1, u2, ta.Val(), tb.Val()) && 0 < t.Val() <= old(t.Val())
    ensures t.Val() % 2 == 1 && Gcd(t.Val(), other) == 1
  {
    hide Nat, BPow, Column, Gcd;
    ghost var a, n := ta.Val(), tb.Val();
    PositiveHasLimbs(t, u1, u2, a, n);
    var odd := IsOdd(t);
    while !odd
      invariant t.p == old(t.p) || fresh(t.p)
      invariant u1.p == old(u1.p) || fresh(u1.p)
      invariant u2.p == old(u2.p) || fresh(u2.p)
      invariant Column(t, u1, u2, a, n) && 0 < t.Val() <= old(t.Val()) && t.p.Length > 0
      invariant Gcd(t.Val(), other) == 1 && (odd <==> t.Val() % 2 == 1)
      decreases t.Val()
    {
      HalfStaysCoprime(t.Val(), other);
      HalveColumn(t, u1, u2, ta, tb);
      odd := IsOdd(t);
    }
  }

  lemma PositiveHasLimbs(t: Mpi, u1: Mpi, u2: Mpi, a: int, n: int)
    requires Column(t, u1, u2, a, n) && t.Val() > 0
    ensures t.p.Length > 0
  {
    NonZeroHasLimbs(t.p[..]);
  }

  lemma CombinationDifference(u1: int, u2: int, v1: int, v2: int, a: int, n: int, t: int, v: int)
    requires u1 * a + u2 * n == t && v1 * a + v2 * n == v
    ensures (u1 - v1) * a + (u2 - v2) * n == t - v
  {
    MulDist(u1, v1, a);
    MulDist(u2, v2, n);
  }

  /** Subtract one column from the other. */
  method SubtractColumn(t: Mpi, u1: Mpi, u2: Mpi, v: Mpi, v1: Mpi, v2: Mpi, ghost a: int, ghost n: int)
    requires Column(t, u1, u2, a, n) && Column(v, v1, v2, a, n)
    requires {t, u1, u2} !! {v, v1, v2} && {t.p, u1.p, u2.p} !! {v.p, v1.p, v2.p}
    modifies t, u1, u2, t.p, u1.p, u2.p
    ensures t.p == old(t.p) || fresh(t.p)
    ensures u1.p == old(u1.p) || fresh(u1.p)
    ensures u2.p == old(u2.p) || fresh(u2.p)
    ensures Column(t, u1, u2, a, n) && t.Val() == old(t.Val()) - v.Val()
  {
    hide Nat, BPow;
    CombinationDifference(u1.Val(), u2.Val(), v1.Val(), v2.Val(), a, n, t.Val(), v.Val());
    SubMpi(t, t, v);
    SubMpi(u1, u1, v1);
    SubMpi(u2, u2, v2);
  }

  /** The state of the extended algorithm: two columns over the same pair A, N. */
  datatype Extended = Extended(ta: Mpi, tb: Mpi, tu: Mpi, u1: Mpi, u2: Mpi, tv: Mpi, v1: Mpi, v2: Mpi)

  ghost predicate Distinct(e: Extended)
    reads e.ta, e.tb, e.tu, e.u1, e.u2, e.tv, e.v1, e.v2
  {
    {e.ta, e.tb} !! {e.tu, e.u1, e.u2, e.tv, e.v1, e.v2} && {e.tu, e.u1, e.u2} !! {e.tv, e.v1, e.v2}
    && {e.ta.p, e.tb.p} !! {e.tu.p, e.u1.p, e.u2.p, e.tv.p, e.v1.p, e.v2.p}
    && {e.tu.p, e.u1.p, e.u2.p} !! {e.tv.p, e.v1.p, e.v2.p}
  }

  ghost predicate Columns(e: Extended, a: int, n: int)
    reads e.ta, e.tb, e.tu, e.u1, e.u2, e.tv, e.v1, e.v2
    reads e.ta.p, e.tb.p, e.tu.p, e.u1.p, e.u2.p, e.tv.p, e.v1.p, e.v2.p
  {
    Distinct(e) && e.ta.Valid() && e.tb.Valid() && e.ta.Val() == a && e.tb.Val() == n
    && (a % 2 == 1 || n % 2 == 1)
    && Column(e.tu, e.u1, e.u2, a, n) && Column(e.tv, e.v1, e.v2, a, n)
    && e.tu.Val() >= 0 && e.tv.Val() > 0 && Gcd(e.tu.Val(), e.tv.Val()) == 1
  }

  /** The first inner loop. */
  method OddFirst(e: Extended, ghost a: int, ghost n: int)
    requires Columns(e, a, n) && e.tu.Val() > 0
    modifies e.tu, e.u1, e.u2, e.tu.p, e.u1.p, e.u2.p
    ensures e.tu.p == old(e.tu.p) || fresh(e.tu.p)
    ensures e.u1.p == old(e.u1.p) || fresh(e.u1.p)
    ensures e.u2.p == old(e.u2.p) || fresh(e.u2.p)
    ensures Columns(e, a, n) && 0 < e.tu.Val() <= old(e.tu.Val()) && e.tu.Val() % 2 == 1
    ensures e.tv.Val() == old(e.tv.Val())
  {
    hide Nat, BPow, Column, Gcd;
    OddColumn(e.tu, e.u1, e.u2, e.ta, e.tb, e.tv.Val());
  }

  /** The second inner loop. */
  method OddSecond(e: Extended, ghost a: int, ghost n: int)
    requires Columns(e, a, n)
    modifies e.tv, e.v1, e.v2, e.tv.p, e.v1.p, e.v2.p
    ensures e.tv.p == old(e.tv.p) || fresh(e.tv.p)
    ensures e.v1.p == old(e.v1.p) || fresh(e.v1.p)
    ensures e.v2.p == old(e.v2.p) || fresh(e.v2.p)
    ensures Columns(e, a, n) && e.tv.Val() <= old(e.tv.Val()) && e.tv.Val() % 2 == 1
    ensures e.tu.Val() == old(e.tu.Val())
  {
    hide Nat, BPow, Column, Gcd;
    GcdComm(e.tu.Val(), e.tv.Val());
    OddColumn(e.tv, e.v1, e.v2, e.ta, e.tb, e.tu.Val());
    GcdComm(e.tu.Val(), e.tv.Val());
  }

  lemma ColumnSigns(e: Extended, a: int, n: int)
    requires Columns(e, a, n)
    ensures e.tu.HasSign() && e.tv.HasSign()
  {}

  /** Subtract the smaller number from the larger, cofactors included. */
  method SubtractSmaller(e: Extended, ghost a: int, ghost n: int)
    requires Columns(e, a, n) && e.tu.Val() > 0
    modifies e.tu, e.u1, e.u2, e.tv, e.v1, e.v2, e.tu.p, e.u1.p, e.u2.p, e.tv.p, e.v1.p, e.v2.p
    ensures e.tu.p == old(e.tu.p) || fresh(e.tu.p)
    ensures e.u1.p == old(e.u1.p) || fresh(e.u1.p)
    ensures e.u2.p == old(e.u2.p) || fresh(e.u2.p)
    ensures e.tv.p == old(e.tv.p) || fresh(e.tv.p)
    ensures e.v1.p == old(e.v1.p) || fresh(e.v1.p)
    ensures e.v2.p == old(e.v2.p) || fresh(e.v2.p)
    ensures Columns(e, a, n) && e.tu.Val() + e.tv.Val() < old(e.tu.Val() + e.tv.Val())
  {
    hide Nat, BPow, Column, Gcd;
    ColumnSigns(e, a, n);
    var c := CmpMpi(e.tu, e.tv);
    if c >= 0 {
      GcdSub(e.tu.Val(), e.tv.Val());
      SubtractColumn(e.tu, e.u1, e.u2, e.tv, e.v1, e.v2, a, n);
    } else {
      GcdComm(e.tu.Val(), e.tv.Val());
      GcdSub(e.tv.Val(), e.tu.Val());
      SubtractColumn(e.tv, e.v1, e.v2, e.tu, e.u1, e.u2, a, n);
      GcdComm(e.tu.Val(), e.tv.Val());
    }
  }

  /** One pass of the outer loop. */
  method ExtendedStep(e: Extended, ghost a: int, ghost n: int)
    requires Columns(e, a, n) && e.tu.Val() > 0
    modifies e.tu, e.u1, e.u2, e.tv, e.v1, e.v2, e.tu.p, e.u1.p, e.u2.p, e.tv.p, e.v1.p, e.v2.p
    ensures e.tu.p == old(e.tu.p) || fresh(e.tu.p)
    ensures e.u1.p == old(e.u1.p) || fresh(e.u1.p)
    ensures e.u2.p == old(e.u2.p) || fresh(e.u2.p)
    ensures e.tv.p == old(e.tv.p) || fresh(e.tv.p)
    ensures e.v1.p == old(e.v1.p) || fresh(e.v1.p)
    ensures e.v2.p == old(e.v2.p) || fresh(e.v2.p)
    ensures Columns(e, a, n) && e.tu.Val() + e.tv.Val() < old(e.tu.Val() + e.tv.Val())
  {
    hide Nat, BPow, Column, Gcd, Columns;
    OddFirst(e, a, n);
    OddSecond(e, a, n);
    SubtractSmaller(e, a, n);
  }

  lemma SignZero(x: int)
    ensures Sign(x) == 0 <==> x == 0
  {}

  /** The outer loop: at the end the second column represents 1. */
  method ExtendedLoop(e: Extended, ghost a: int, ghost n: int)
    requires Columns(e, a, n) && e.tu.Val() > 0
    modifies e.tu, e.u1, e.u2, e.tv, e.v1, e.v2, e.tu.p, e.u1.p, e.u2.p, e.tv.p, e.v1.p, e.v2.p
    ensures e.tu.p == old(e.tu.p) || fresh(e.tu.p)
    ensures e.u1.p == old(e.u1.p) || fresh(e.u1.p)
    ensures e.u2.p == old(e.u2.p) || fresh(e.u2.p)
    ensures e.tv.p == old(e.tv.p) || fresh(e.tv.p)
    ensures e.v1.p == old(e.v1.p) || fresh(e.v1.p)
    ensures e.v2.p == old(e.v2.p) || fresh(e.v2.p)
    ensures Columns(e, a, n) && e.v1.Valid() && e.v1.Val() * a + e.v2.Val() * n == 1
  {
    hide *;
    WordFacts();
    ColumnRanges(e, a, n);
    var c := 1;
    while c != 0
      invariant e.tu.p == old(e.tu.p) || fresh(e.tu.p)
      invariant e.u1.p == old(e.u1.p) || fresh(e.u1.p)
      invariant e.u2.p == old(e.u2.p) || fresh(e.u2.p)
      invariant e.tv.p == old(e.tv.p) || fresh(e.tv.p)
      invariant e.v1.p == old(e.v1.p) || fresh(e.v1.p)
      invariant e.v2.p == old(e.v2.p) || fresh(e.v2.p)
      invariant Columns(e, a, n) && e.tu.Val() >= 0 && e.tv.Val() > 0 && (c == 0 <==> e.tu.Val() == 0)
      decreases e.tu.Val() + e.tv.Val(), c != 0
    {
      ExtendedStep(e, a, n);
      ColumnSigns(e, a, n);
      ColumnRanges(e, a, n);
      c := CmpInt(e.tu, 0);
      SignZero(e.tu.Val() - 0);
    }
    LastColumn(e, a, n);
  }

  lemma ColumnRanges(e: Extended, a: int, n: int)
    requires Columns(e, a, n)
    ensures e.tu.Val() >= 0 && e.tv.Val() > 0
  {}

  lemma LastColumn(e: Extended, a: int, n: int)
    requires Columns(e, a, n) && e.tu.Val() == 0
    ensures e.v1.Valid() && e.v1.Val() * a + e.v2.Val() * n == 1
  {
    GcdZeroLeft(e.tv.Val());
  }

  /** A fresh column: a copy of x with the cofactors c1 and c2. */
  method NewColumn(x: Mpi, c1: int, c2: int) returns (t: Mpi, u1: Mpi, u2: Mpi)
    requires x.Valid() && 0 <= c1 <= 1 && 0 <= c2 <= 1
    ensures fresh(t) && fresh(u1) && fresh(u2) && fresh(t.p) && fresh(u1.p) && fresh(u2.p)
    ensures Unshared(t, u1, u2) && t.Val() == x.Val() && u1.Val() == c1 && u2.Val() == c2
  {
    hide Nat, BPow, Pow2;
    WordFacts();
    t := new Mpi();
    u1 := new Mpi();
    u2 := new Mpi();
    Copy(t, x);
    Lset(u1, c1);
    Lset(u2, c2);
  }

  /** The two columns at the start: A and N themselves. */
  method NewColumns(ta: Mpi, tb: Mpi, ghost a: int, ghost n: int) returns (e: Extended)
    requires ta.Valid() && tb.Valid() && ta.Val() == a && tb.Val() == n && a > 0 && n > 0 && Gcd(a, n) == 1
    ensures fresh({e.tu, e.u1, e.u2, e.tv, e.v1, e.v2})
    ensures fresh({e.tu.p, e.u1.p, e.u2.p, e.tv.p, e.v1.p, e.v2.p})
    ensures e.ta == ta && e.tb == tb && Columns(e, a, n) && e.tu.Val() > 0
  {
    hide Nat, BPow, Gcd;
    CoprimeOdd(a, n);
    var tu, u1, u2 := NewColumn(ta, 1, 0);
    var tv, v1, v2 := NewColumn(tb, 0, 1);
    e := Extended(ta, tb, tu, u1, u2, tv, v1, v2);
  }

  lemma InverseFound(a: int, n: int, v1: int, v2: int, x: int)
    requires n > 1 && v1 * (a % n) + v2 * n == 1 && x == v1 % n
    ensures 0 < x < n && Cong(a * x, 1, n)
  {
    var r := a % n;
    CongMod(v1, n);
    CongMod(a, n);
    CongSym(r, a, n);
    CongMul(a, r, x, v1, n);
    CongIntro(r * v1, 1, -v2, n);
    CongTrans(a * x, r * v1, 1, n);
    DivModFacts(v1, n);
    if x == 0 { CongIs(a * x, 1, n); ModSmall(0, n); ModSmall(1, n); }
  }

  /** N in a fresh MPI and A mod N, if A is invertible. */
  method Residue(a: Mpi, n: Mpi) returns (ok: bool, ta: Mpi, tb: Mpi)
    requires a.Valid() && n.Valid() && n.Val() > 1
    ensures fresh(ta) && fresh(tb) && fresh(ta.p) && fresh(tb.p)
    ensures ok <==> Gcd(Abs(a.Val()), n.Val()) == 1
    ensures ok ==> ta.Valid() && tb.Valid() && ta.Val() == a.Val() % n.Val() && tb.Val() == n.Val()
    ensures ok ==> ta.Val() > 0 && Gcd(ta.Val(), n.Val()) == 1
  {
    hide Nat, BPow, Gcd, Pow2;
    ta := new Mpi();
    tb := new Mpi();
    ok := Coprime(a, n);
    if !ok { return; }
    CoprimeResidue(a.Val(), n.Val());
    var ret := ModMpi(ta, a, n);
    Copy(tb, n);
  }

  /** Is gcd(A, N) one? */
  method Coprime(a: Mpi, n: Mpi) returns (ok: bool)
    requires a.Valid() && n.Valid() && n.Val() > 1
    ensures ok <==> Gcd(Abs(a.Val()), n.Val()) == 1
  {
    hide Nat, BPow, Gcd;
    WordFacts();
    var g := new Mpi();
    GcdMpi(g, a, n);
    var c := CmpInt(g, 1);
    ok := c == 0;
  }

  lemma CoprimeResidue(a: int, n: int)
    requires n > 1 && Gcd(Abs(a), n) == 1
    ensures 0 < a % n < n && Gcd(a % n, n) == 1
  {
    hide Gcd;
    GcdMod(a, n);
    DivModFacts(a, n);
    GcdZeroLeft(n);
  }

  /** x = a^-1 mod n, refused exactly when there is none. x may be a or n. */
  method InvMod(x: Mpi, a: Mpi, n: Mpi) returns (ret: Status)
    requires x.Valid() && a.Valid() && n.Valid() && Apart(x, a) && Apart(x, n)
    modifies x, x.p
    ensures x.p == old(x.p) || fresh(x.p)
    ensures ret == if old(n.Val()) <= 1 then BadInputData
                   else if Gcd(Abs(old(a.Val())), old(n.Val())) != 1 then NotAcceptable else Success
    ensures ret.Success? ==> x.Valid() && 0 < x.Val() < old(n.Val())
    ensures ret.Success? ==> Cong(old(a.Val()) * x.Val(), 1, old(n.Val()))
    ensures !ret.Success? ==> x.Valid() && x.Val() == old(x.Val())
  {
    hide Nat, BPow, Columns, Gcd, Cong;
    WordFacts();
    ghost var av, nv := a.Val(), n.Val();
    var c := CmpInt(n, 1);
    if c <= 0 { return BadInputData; }
    var ok, ta, tb := Residue(a, n);
    if !ok { return NotAcceptable; }
    var e := NewColumns(ta, tb, ta.Val(), nv);
    ExtendedLoop(e, av % nv, nv);
    CongRefl(e.v1.Val(), nv);
    InverseFound(av, nv, e.v1.Val(), e.v2.Val(), e.v1.Val() % nv);
    LiftResidue(e.v1, n, e.v1.Val());
    Copy(x, e.v1);
    return Success;
  }

  /** An inverse exists exactly when the numbers are coprime: the refusal is never wrong. */
  lemma InvertibleIffCoprime(a: int, n: nat)
    requires n > 1
    ensures (exists x :: Cong(a * x, 1, n)) <==> Gcd(Abs(a), n) == 1
  {
    hide Gcd, Cong, Divides;
    var g := Gcd(Abs(a), n);
    GcdDivides(Abs(a), n);
    if x :| Cong(a * x, 1, n) {
      var k := CongElim(a * x, 1, n);
      DividesAbs(g, a);
      DividesCombination(g, a, n, x, -k);
      DividesLe(g, 1);
    }
    if g == 1 {
      var x := InverseExists(Abs(a), n);
      if a < 0 { assert a * -x == Abs(a) * x; }
      assert exists y :: Cong(a * y, 1, n) by {
        var y := if a < 0 then -x else x;
        assert Cong(a * y, 1, n);
      }
    }
  }
}
