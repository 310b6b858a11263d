/** The primality test: small divisors, then Miller-Rabin (HAC 4.24). */
module Primes {
  import opened Arith
  import opened Words
  import opened Limbs
  import opened Divisors
  import opened Mpis
  import opened MpiArith
  import opened MpiBits
  import opened MpiShift
  import opened MpiDiv
  import opened MpiMod
  import opened MpiGcd
  import opened MpiExp

  // ---------- strong probable primes ----------

  /** The odd part r of n - 1, and the number s of its factors of two. */
  function OddExponent(n: nat): nat
    requires n > 1
  {
    OddPart(n - 1)
  }

  function Twos(n: nat): nat
    requires n > 1
  {
    TrailingZeros(n - 1)
  }

  /** a to the power 2^i * r, modulo n. */
  function Square(n: nat, a: nat, i: nat): nat
    requires n > 1
  {
    Pow(a, Pow2(i) * OddExponent(n)) % n
  }

  /** n passes the Miller-Rabin test for the witness a. */
  ghost predicate Strong(n: nat, a: nat)
    requires n > 1
  {
    Square(n, a, 0) == 1 || exists j :: 0 <= j < Twos(n) && Square(n, a, j) == n - 1
  }

  lemma SquareStep(n: nat, a: nat, i: nat)
    requires n > 1
    ensures Square(n, a, i) * Square(n, a, i) % n == Square(n, a, i + 1)
  {
    hide Pow, OddPart;
    var r := OddExponent(n);
    var e := Pow2(i) * r;
    assert Pow2(i + 1) * r == e + e by { MulAssoc(2, Pow2(i), r); }
    PowAdd(a, e, e);
    var p := Pow(a, e);
    CongMod(p, n);
    CongMul(p % n, p, p % n, p, n);
    CongIs(p % n * (p % n), p * p, n);
  }

  lemma SquareRange(n: nat, a: nat, i: nat)
    requires n > 1
    ensures 0 <= Square(n, a, i) < n
  {
    DivModFacts(Pow(a, Pow2(i) * OddExponent(n)), n);
  }

  /** Once 1, always 1. */
  lemma {:induction false} StaysOne(n: nat, a: nat, i: nat, j: nat)
    requires n > 1 && i <= j && Square(n, a, i) == 1
    ensures Square(n, a, j) == 1
    decreases j
  {
    hide Square;
    if j > i {
      StaysOne(n, a, i, j - 1);
      SquareStep(n, a, j - 1);
      ModSmall(1, n);
    }
  }

  /** For a prime, walking back from a^(p-1) = 1 meets -1 or ends at a^r = 1. */
  lemma {:induction false} WalkBack(p: nat, a: nat, i: nat)
    requires Prime(p) && i <= Twos(p) && Square(p, a, i) == 1
    ensures Strong(p, a)
    decreases i
  {
    hide Prime, Square;
    if i > 0 {
      var y := Square(p, a, i - 1);
      SquareRange(p, a, i - 1);
      SquareStep(p, a, i - 1);
      ModSmall(1, p);
      if y == 0 { ModSmall(0, p); }
      CongIs(y * y, 1, p);
      SquareRootsOfOne(y, p);
      if Cong(y, 1, p) {
        CongSmall(y, 1, p);
        WalkBack(p, a, i - 1);
      } else {
        CongIntro(p - 1, -1, 1, p);
        CongTrans(y, -1, p - 1, p) by { CongSym(p - 1, -1, p); }
        CongSmall(y, p - 1, p);
      }
    }
  }

  /** No witness rejects a prime. */
  lemma PrimeIsStrong(p: nat, a: nat)
    requires Prime(p) && a % p != 0
    ensures Strong(p, a)
  {
    hide Prime, Pow, Strong;
    PrimePositive(p);
    OddPartFacts(p - 1);
    var s := Twos(p);
    assert Pow2(s) * OddExponent(p) == p - 1;
    Fermat(a, p);
    CongIs(Pow(a, p - 1), 1, p);
    ModSmall(1, p);
    WalkBack(p, a, s);
  }

  /** A strong probable prime is one in the sense of Fermat. */
  lemma StrongIsFermat(n: nat, a: nat)
    requires n > 2 && Strong(n, a)
    ensures Pow(a, n - 1) % n == 1
  {
    hide Pow, OddPart, TrailingZeros, Square;
    OddPartFacts(n - 1);
    if Square(n, a, 0) == 1 {
      StaysOne(n, a, 0, Twos(n));
    } else {
      var j :| 0 <= j < Twos(n) && Square(n, a, j) == n - 1;
      SquareStep(n, a, j);
      MinusOneSquared(n);
      StaysOne(n, a, j + 1, Twos(n));
    }
    SquareIs(n, a, Twos(n), n - 1);
  }

  lemma MinusOneSquared(n: int)
    requires n > 2
    ensures (n - 1) * (n - 1) % n == 1
  {
    MulDist(n, -1, n - 1);
    DivModUnique((n - 1) * (n - 1), n - 2, 1, n);
  }

  lemma SquareIs(n: nat, a: nat, i: nat, e: nat)
    requires n > 1 && Pow2(i) * OddExponent(n) == e
    ensures Square(n, a, i) == Pow(a, e) % n
  {}

  /** One witness is not enough: 7 supports 25, and 2 refutes it. */
  lemma OneRoundTooFew()
    ensures Strong(25, 7) && !Strong(25, 2) && !Prime(25)
  {
    hide Square, Prime;
    SplitOf24();
    SquaresOf7();
    SquaresOf2();
    NotPrime(25, 5);
  }

  lemma SquaresOf7()
    ensures Square(25, 7, 1) == 24
  {
    hide Pow, OddPart;
    SplitOf24();
    Cubes();
    Pow2Values();
    SquareStep(25, 7, 0);
  }

  lemma SquaresOf2()
    ensures Square(25, 2, 0) == 8 && Square(25, 2, 1) == 14 && Square(25, 2, 2) == 21
  {
    hide Pow, OddPart;
    SplitOf24();
    Cubes();
    Pow2Values();
    SquareStep(25, 2, 0);
    SquareStep(25, 2, 1);
  }

  lemma SplitOf24()
    ensures OddExponent(25) == 3 && Twos(25) == 3
  {
    assert OddPart(24) == OddPart(12) == OddPart(6) == OddPart(3) == 3;
    assert TrailingZeros(24) == 1 + TrailingZeros(12) == 2 + TrailingZeros(6) == 3 + TrailingZeros(3) == 3;
  }

  lemma Cubes()
    ensures Pow(7, 3) == 343 && Pow(2, 3) == 8
  {
    assert Pow(7, 1) == 7 && Pow(7, 2) == 49 && Pow(2, 1) == 2 && Pow(2, 2) == 4;
  }

  // ---------- one round ----------

  /** None of the powers up to index j - 1 is -1. */
  ghost predicate NotYet(n: nat, a: nat, j: nat)
    requires n > 1
  {
    Square(n, a, 0) != 1 && forall i :: 0 <= i < j ==> Square(n, a, i) != n - 1
  }

  /** How the loop ends: at -1, at 1 too early, or out of squarings. */
  lemma Verdict(n: nat, a: nat, j: nat, v: nat)
    requires n > 2 && j < Twos(n) && NotYet(n, a, j) && v == Square(n, a, j)
    requires v == 1 || v == n - 1 || j + 1 == Twos(n)
    ensures Strong(n, a) <==> v == n - 1
  {
    hide Square;
    if v == 1 {
      forall i | j <= i < Twos(n) ensures Square(n, a, i) == 1 { StaysOne(n, a, j, i); }
    }
  }

  /** Square a modulo x until it is 1 or -1, at most s - 1 times. */
  method SquareUp(a: Mpi, x: Mpi, w: Mpi, s: nat, ghost a0: nat) returns (ok: bool)
    requires a.Valid() && x.Valid() && w.Valid() && a !in {x, w} && a.p !in {x.p, w.p}
    requires x.Val() > 2 && w.Val() == x.Val() - 1 && s == Twos(x.Val()) && s > 0
    requires a.Val() == Square(x.Val(), a0, 0) && a.Val() != 1 && a.Val() != w.Val()
    modifies a, a.p
    ensures a.p == old(a.p) || fresh(a.p)
    ensures a.Valid() && (ok <==> Strong(x.Val(), a0))
  {
    hide Nat, BPow, Pow2, Square, TrailingZeros, NotYet;
    WordFacts();
    ghost var n := x.Val();
    var t := new Mpi();
    var j: nat := 1;
    var c := CmpMpi(a, w);
    NotYetAtStart(n, a0);
    while j < s && c != 0
      invariant a.p == old(a.p) || fresh(a.p)
      invariant t.Valid() && fresh(t) && fresh(t.p) && t.p != a.p
      invariant a.Valid() && a !in {x, w} && a.p !in {x.p, w.p} && 1 <= j <= s
      invariant NotYet(n, a0, j - 1) && a.Val() == Square(n, a0, j - 1) && a.Val() != 1
      invariant c == 0 <==> a.Val() == n - 1
      decreases s - j
    {
      SquareStep(n, a0, j - 1);
      NotYetStep(n, a0, j - 1);
      MulMpi(t, a, a);
      var ret := ModMpi(a, t, x);
      c := CmpMpi(a, w);
      var d := CmpInt(a, 1);
      if d == 0 {
        Verdict(n, a0, j, 1);
        return false;
      }
      j := j + 1;
    }
    Verdict(n, a0, j - 1, a.Val());
    ok := c == 0;
  }

  lemma NotYetAtStart(n: nat, a: nat)
    requires n > 1 && Square(n, a, 0) != 1
    ensures NotYet(n, a, 0)
  {}

  lemma NotYetStep(n: nat, a: nat, j: nat)
    requires n > 1 && NotYet(n, a, j) && Square(n, a, j) != n - 1
    ensures NotYet(n, a, j + 1)
  {}

  /** What the round starts from: W = X - 1 split into 2^s * R. */
  ghost predicate Setup(x: Mpi, w: Mpi, r: Mpi, s: nat)
    reads x, x.p, w, w.p, r, r.p
  {
    x.Valid() && w.Valid() && r.Valid() && x.Val() > 2 && x.Val() % 2 == 1
    && w.Val() == x.Val() - 1 && s == Twos(x.Val()) && s > 0 && r.Val() == OddExponent(x.Val())
  }

  /** One round with the witness in a. */
  method Round(a: Mpi, x: Mpi, w: Mpi, r: Mpi, s: nat, rr: Mpi) returns (ret: Status, ok: bool)
    requires Setup(x, w, r, s) && a.Valid() && a.Val() > 0
    requires {a, rr} !! {x, w, r} && {a.p, rr.p} !! {x.p, w.p, r.p} && a != rr && a.p != rr.p
    requires rr.p.Length > 0 ==> SquaredRadix(rr, x)
    modifies a, a.p, rr
    ensures a.p == old(a.p) || fresh(a.p)
    ensures rr.p == old(rr.p) || fresh(rr.p)
    ensures ret == if BitLen(x.Val()) <= MaxBits then Success else BadInputData
    ensures ret.Success? ==> SquaredRadix(rr, x) && rr.p !in {a.p, x.p, w.p, r.p}
    ensures a.Valid() && (ret.Success? ==> (ok <==> Strong(x.Val(), old(a.Val()))))
  {
    hide Nat, BPow, Pow2, Pow, TrailingZeros, OddPart, BitLen, SquaredRadix;
    ghost var a0, n := a.Val(), x.Val();
    FirstPower(n, a0, x.Val());
    WordFacts();
    ret := ExpMod(a, a, r, x, rr);
    if ret != Success { return ret, false; }
    ok := Test(a, x, w, s, a0);
  }

  /** The verdict on a^r. */
  method Test(a: Mpi, x: Mpi, w: Mpi, s: nat, ghost a0: nat) returns (ok: bool)
    requires a.Valid() && x.Valid() && w.Valid() && a !in {x, w} && a.p !in {x.p, w.p}
    requires x.Val() > 2 && w.Val() == x.Val() - 1 && s == Twos(x.Val()) && s > 0
    requires a.Val() == Square(x.Val(), a0, 0)
    modifies a, a.p
    ensures a.p == old(a.p) || fresh(a.p)
    ensures a.Valid() && (ok <==> Strong(x.Val(), a0))
  {
    hide Nat, BPow, Pow2, Square, TrailingZeros;
    WordFacts();
    var c := CmpMpi(a, w);
    var d := CmpInt(a, 1);
    if c == 0 || d == 0 { return true; }
    ok := SquareUp(a, x, w, s, a0);
  }

  lemma FirstPower(n: nat, a: nat, x: int)
    requires n > 2 && n % 2 == 1
    ensures ModExp(a, OddExponent(n), n) == Square(n, a, 0)
    ensures ExpAccepts(OddExponent(n), n) <==> BitLen(n) <= MaxBits
    ensures OddExponent(n) >= 0
  {
    hide Pow, BitLen;
    Pow2Values();
    OddPartFacts(n - 1);
    BitLenMono(OddExponent(n), n);
  }

  // ---------- choosing a witness ----------

  /** x takes the given limbs and the sign of a positive number. */
  method FillRandom(x: Mpi, limbs: seq<Limb>)
    modifies x, x.p
    ensures x.p == old(x.p) || fresh(x.p)
    ensures x.s == 1 && x.p[..] == limbs && x.Valid()
  {
    hide Nat, BPow;
    ResizeClear(x, |limbs|);
    forall k | 0 <= k < |limbs| { x.p[k] := limbs[k]; }
  }

  /** The number a draw yields: cut to one bit less than w when it has more bits than w. */
  function Drawn(v: nat, w: nat): nat {
    if BitLen(v) > BitLen(w) > 0 then v % Pow2(BitLen(w) - 1) else v
  }

  predicate Usable(v: nat, w: nat) { 1 < Drawn(v, w) < w }

  /** A draw that is too long for the bound is below it once it is cut, and every number of that
      length is still possible. */
  lemma DrawnBelow(v: nat, w: nat, u: nat)
    requires w > 0 && BitLen(v) > BitLen(w)
    ensures Drawn(v, w) < Pow2(BitLen(w) - 1) <= w < 2 * Pow2(BitLen(w) - 1)
    ensures u < Pow2(BitLen(w) - 1) ==>
      BitLen(u + Pow2(BitLen(w))) > BitLen(w) && Drawn(u + Pow2(BitLen(w)), w) == u
  {
    hide Pow2, BitLen;
    BitLenBounds(w);
    var k := BitLen(w);
    assert k > 0 by { Pow2Values(); }
    Pow2Add(1, k - 1);
    Pow2Values();
    DivModFacts(v, Pow2(k - 1));
    if u < Pow2(k - 1) {
      BitLenUnique(u + Pow2(k), k + 1) by { Pow2Add(1, k); }
      DivModUnique(u + Pow2(k), 2, u, Pow2(k - 1));
    }
  }

  /** Masking the top limb reduces the number modulo a power of two. */
  lemma MaskTop(s: seq<Limb>, t: nat)
    requires |s| > 0 && t < biL
    ensures biL * (|s| - 1) >= 0 && s[|s| - 1] % Pow2(t) < B
    ensures Nat(s[|s| - 1 := s[|s| - 1] % Pow2(t)]) == Nat(s) % Pow2(biL * (|s| - 1) + t)
  {
    hide Nat, BPow, Pow2;
    var m := |s| - 1;
    var top := s[m];
    DivModFacts(top, Pow2(t));
    QuotientNonNegative(top, Pow2(t));
    BPowIsPow2(m);
    Pow2Add(biL * m, t);
    NatUpdate(s, m, top % Pow2(t));
    NatTake(s, m);
    assert s[..m + 1] == s;
    NatBound(s[..m]);
    MaskArithmetic(Nat(s[..m]), top, BPow(m), Pow2(t));
  }

  lemma QuotientNonNegative(x: nat, p: int)
    requires p > 0
    ensures x % p <= x
  {
    DivModFacts(x, p);
    DivMono(0, x, p);
    ModSmall(0, p);
    MulMono(0, x / p, p);
  }

  lemma MaskArithmetic(low: nat, top: nat, b: nat, p: nat)
    requires low < b && p > 0
    ensures b * p > 0
    ensures low + top * b + (top % p - top) * b == (low + top * b) % (b * p)
  {
    MulPos(b, p);
    DivModFacts(top, p);
    MulDist(top % p, top, b);
    MulMono(top % p + 1, p, b);
    MulDist(top % p, 1, b);
    MulDist(p * (top / p), top % p, b);
    MulSwap(top / p, p, 1, b);
    assert p * (top / p) * b == (top / p) * (b * p) by { MulAssoc(top / p, p, b); }
    MulMono(0, top % p, b);
    DivModUnique(low + top * b, top / p, low + top % p * b, b * p);
  }

  /** The shift that makes the mask of a draw is not negative exactly if the candidate has no
      leading zero limb; and it stays below the limb width. */
  lemma TopLimbMask(s: seq<Limb>, x: nat)
    requires |s| > 0 && x == Nat(s) && x > 2 && x % 2 == 1
    ensures BitLen(x - 1) - (|s| - 1) * biL - 1 >= 0 <==> s[|s| - 1] != 0
    ensures BitLen(x - 1) - (|s| - 1) * biL - 1 < biL
  {
    hide Nat, BPow, Pow2, BitLen;
    var m := |s| - 1;
    NatBound(s);
    LimbsCover(x - 1, |s|);
    if s[m] == 0 {
      NatTake(s, m);
      assert s[..m + 1] == s;
      NatBound(s[..m]);
      LimbsCover(x - 1, m);
    } else {
      NatAtLeast(s, m);
      BPowIsPow2(m);
      BitLenBounds(x - 1);
      Pow2Values();
      if m > 0 { BPowEven(m); }
      Pow2Between(x - 1, biL * m, BitLen(x - 1));
    }
  }

  /** A number that fits n limbs has no more bits than they. */
  lemma LimbsCover(w: nat, n: nat)
    requires w < BPow(n)
    ensures BitLen(w) <= biL * n
  {
    hide BPow, Pow2, BitLen;
    BPowIsPow2(n);
    BitLenBounds(w);
    if BitLen(w) > 0 { Pow2Between(w, BitLen(w) - 1, biL * n); }
  }

  /** What C asks of the mask: when a draw v of so many limbs is masked, the shift is no negative
      number. */
  predicate MaskDefined(v: nat, w: nat, limbs: nat) {
    BitLen(v) > BitLen(w) ==> BitLen(w) - (limbs - 1) * biL - 1 >= 0
  }

  /** The first draws, up to number count, are all masked within what C defines. */
  ghost predicate DrawsDefined(source: nat -> seq<Limb>, w: nat, limbs: nat, from: nat, count: nat) {
    forall i: nat :: from <= i < from + count ==> MaskDefined(DrawValue(source, i), w, limbs)
  }

  /** A candidate without leading zero limbs needs nothing from the random source. */
  lemma NormalisedDraws(x: seq<Limb>, source: nat -> seq<Limb>, count: nat)
    requires |x| > 0 && Nat(x) > 2 && Nat(x) % 2 == 1 && x[|x| - 1] != 0
    ensures DrawsDefined(source, Nat(x) - 1, |x|, 0, count)
  {
    hide Nat, BitLen;
    TopLimbMask(x, Nat(x));
  }

  /** The limbs 5 and 0: masking a draw with a bit in its upper limb would shift by less than
      nothing. */
  lemma MaskUndefined()
    ensures B > 5 && Nat([5, 0]) == 5 && !MaskDefined(Nat([0, 1]), 5 - 1, 2)
  {
    hide Nat, BPow, Pow2, BitLen;
    WordFacts();
    NatPair(5, 0);
    NatPair(0, 1);
    Pow2Values();
    BitLenUnique(4, 3);
    BitLenBounds(B);
    Pow2Between(B, biL - 1, BitLen(B));
    TopLimbMask([5, 0], 5);
  }

  lemma BPowEven(m: nat)
    requires m > 0
    ensures BPow(m) % 2 == 0
  {
    hide BPow;
    WordFacts();
    BPowStep(m - 1);
    MulAssoc(BPow(m - 1), B / 2, 2);
    DivModUnique(BPow(m), BPow(m - 1) * (B / 2), 0, 2);
  }

  /** Draw number i of the random source, as an integer. */
  function DrawValue(source: nat -> seq<Limb>, i: nat): nat { Nat(source(i)) }

  /** Draws from index i up to j are all unusable. */
  ghost predicate Unusable(source: nat -> seq<Limb>, w: nat, i: nat, j: nat) {
    forall k :: i <= k < j ==> !Usable(DrawValue(source, k), w)
  }

  /** One draw: fill a and cut it to size. */
  method Draw(a: Mpi, w: Mpi, limbs: seq<Limb>)
    requires a != w && a.p != w.p && |limbs| > 0 && w.Valid() && 0 < w.Val() < BPow(|limbs|)
    requires MaskDefined(Nat(limbs), w.Val(), |limbs|)
    modifies a, a.p
    ensures a.p == old(a.p) || fresh(a.p)
    ensures a.Valid() && a.Val() == Drawn(Nat(limbs), w.Val())
  {
    hide Nat, BPow, Pow2, BitLen, BitAnd;
    FillRandom(a, limbs);
    var j := Bitlen(a);
    var k := Bitlen(w);
    LimbsCover(w.Val(), |limbs|);
    BitLenBounds(w.Val());
    var n := a.p.Length;
    if j > k {
      var shift := k - (n - 1) * biL - 1;
      MaskTop(limbs, shift);
      AndMask(a.p[n - 1], shift);
      assert (n - 1) * biL == biL * (n - 1);
      ghost var cut := limbs[n - 1 := limbs[n - 1] % Pow2(shift)];
      a.p[n - 1] := BitAnd(a.p[n - 1], Pow2(shift) - 1);
      assert a.p[..] == cut;
    }
  }

  /** Draw until the number lies strictly between 1 and w; give up after 31 useless draws and a
      further one that is not looked at. */
  method PickWitness(a: Mpi, x: Mpi, w: Mpi, source: nat -> seq<Limb>, i0: nat) returns (ok: bool, i: nat)
    requires {a} !! {x, w} && {a.p} !! {x.p, w.p} && x.p.Length > 0
    requires w.Valid() && w.Val() == x.Mag() - 1 && x.Mag() > 2
    requires (forall k :: |source(k)| == x.p.Length) && DrawsDefined(source, w.Val(), x.p.Length, i0, 32)
    modifies a, a.p
    ensures a.p == old(a.p) || fresh(a.p)
    ensures a.Valid() && i0 < i <= i0 + 32
    ensures ok ==> i <= i0 + 31 && 1 < a.Val() < w.Val() && Unusable(source, w.Val(), i0, i - 1)
    ensures ok ==> a.Val() == Drawn(DrawValue(source, i - 1), w.Val())
    ensures !ok ==> i == i0 + 32 && Unusable(source, w.Val(), i0, i0 + 31)
  {
    hide Nat, BPow, Pow2, BitLen, Drawn, MaskDefined;
    WordFacts();
    NatBound(x.p[..]);
    var count := 0;
    i := i0;
    ok := false;
    while !ok
      invariant a.p == old(a.p) || fresh(a.p)
      invariant a != w && a.p != w.p && a.p != x.p && i0 + count == i && count <= 31
      invariant !ok ==> Unusable(source, w.Val(), i0, i)
      invariant ok ==> i > i0 && a.Valid() && Unusable(source, w.Val(), i0, i - 1)
                       && 1 < a.Val() < w.Val() && a.Val() == Drawn(DrawValue(source, i - 1), w.Val())
      decreases 32 - count, !ok
    {
      assert MaskDefined(DrawValue(source, i), w.Val(), x.p.Length);
      Draw(a, w, source(i));
      i := i + 1;
      count := count + 1;
      if count > 31 { return false, i; }
      var c := CmpMpi(a, w);
      var d := CmpInt(a, 1);
      ok := c < 0 && d > 0;
    }
  }

  // ---------- Miller-Rabin ----------

  /** 31 useless draws in a row, from draw number i on. */
  ghost predicate DryAt(source: nat -> seq<Limb>, w: nat, i: nat) {
    Unusable(source, w, i, i + 31)
  }

  /** Somewhere in the draws that so many rounds can make, 31 in a row are useless. */
  ghost predicate RunsDry(source: nat -> seq<Limb>, w: nat, rounds: nat) {
    exists i: nat :: i + 32 <= 32 * rounds && DryAt(source, w, i)
  }

  /** A witness against n. */
  ghost predicate Refuted(n: nat)
    requires n > 2
  {
    exists a :: 1 < a < n - 1 && !Strong(n, a)
  }

  /** Draw number i is the first usable one from number from on, and it comes in time. */
  ghost predicate PickAt(source: nat -> seq<Limb>, w: nat, from: nat, i: nat) {
    from <= i < from + 31 && Unusable(source, w, from, i) && Usable(DrawValue(source, i), w)
  }

  /** Where the search for witness k starts: behind the draw taken before. */
  function From(at: seq<nat>, k: nat): nat
    requires k <= |at|
  {
    if k == 0 then 0 else at[k - 1] + 1
  }

  /** at are the places of the first usable draws, with never 31 useless ones in a row. */
  ghost predicate Picks(source: nat -> seq<Limb>, w: nat, at: seq<nat>) {
    forall k :: 0 <= k < |at| ==> PickAt(source, w, From(at, k), at[k])
  }

  /** The drawn witness supports n. */
  ghost predicate Supports(source: nat -> seq<Limb>, n: nat, i: nat)
    requires n > 2
  {
    Strong(n, Drawn(DrawValue(source, i), n - 1))
  }

  ghost predicate AllSupport(source: nat -> seq<Limb>, n: nat, at: seq<nat>)
    requires n > 2
  {
    forall k :: 0 <= k < |at| ==> Supports(source, n, at[k])
  }

  /** The first so many usable draws all support n, and none of them comes too late. */
  ghost predicate Passes(source: nat -> seq<Limb>, n: nat, rounds: nat)
    requires n > 2
  {
    exists at :: |at| == rounds && Picks(source, n - 1, at) && AllSupport(source, n, at)
  }

  /** What the test answers: numbers too long for exp_mod are refused in the first round. */
  ghost function Answer(source: nat -> seq<Limb>, n: nat, rounds: nat): Status
    requires n > 2
  {
    if BitLen(n) <= MaxBits then (if Passes(source, n, rounds) then Success else NotAcceptable)
    else if rounds == 0 then Success
    else if DryAt(source, n - 1, 0) then NotAcceptable
    else BadInputData
  }

  /** There is at most one pick. */
  lemma SingleChoice(source: nat -> seq<Limb>, w: nat, from: nat, i: nat, j: nat)
    requires PickAt(source, w, from, i)
    ensures PickAt(source, w, from, j) ==> i == j
    ensures !DryAt(source, w, from)
  {
    hide DrawValue, Usable;
  }

  /** The places are determined by the source. */
  lemma {:induction false} SamePick(source: nat -> seq<Limb>, w: nat, at: seq<nat>, at': seq<nat>, k: nat)
    requires Picks(source, w, at) && Picks(source, w, at') && k < |at| && k < |at'|
    ensures at[k] == at'[k]
    decreases k
  {
    hide PickAt;
    if k > 0 { SamePick(source, w, at, at', k - 1); }
    SingleChoice(source, w, From(at, k), at[k], at'[k]);
  }

  /** The witness after those at the places at is missing or refutes n, so n does not pass. */
  lemma StopsHere(source: nat -> seq<Limb>, n: nat, rounds: nat, at: seq<nat>)
    requires n > 2 && Picks(source, n - 1, at) && |at| < rounds
    requires var from := From(at, |at|);
             DryAt(source, n - 1, from)
             || exists i :: PickAt(source, n - 1, from, i) && !Supports(source, n, i)
    ensures !Passes(source, n, rounds)
  {
    hide PickAt, DryAt, Supports;
    var from, k := From(at, |at|), |at|;
    forall at' | |at'| == rounds && Picks(source, n - 1, at') ensures !AllSupport(source, n, at') {
      if k > 0 { SamePick(source, n - 1, at, at', k - 1); }
      assert PickAt(source, n - 1, from, at'[k]);
      var i :| DryAt(source, n - 1, from) || (PickAt(source, n - 1, from, i) && !Supports(source, n, i));
      SingleChoice(source, n - 1, from, at'[k], i);
      assert at'[k] == i;
    }
  }

  lemma OneMorePick(source: nat -> seq<Limb>, w: nat, at: seq<nat>, i: nat)
    requires Picks(source, w, at) && PickAt(source, w, From(at, |at|), i)
    ensures Picks(source, w, at + [i]) && From(at + [i], |at| + 1) == i + 1
  {
    hide PickAt;
    var next := at + [i];
    forall k | 0 <= k < |next| ensures PickAt(source, w, From(next, k), next[k]) {
      if k < |at| { assert From(next, k) == From(at, k); }
    }
  }

  /** W = X - 1, and R = W without its factors of two. */
  method Decompose(x: Mpi) returns (w: Mpi, r: Mpi, s: nat)
    requires x.Valid() && x.Val() > 2 && x.Val() % 2 == 1
    ensures fresh(w) && fresh(r) && fresh(w.p) && fresh(r.p) && w != r && w.p != r.p
    ensures Setup(x, w, r, s)
  {
    hide Nat, BPow, Pow2, TrailingZeros;
    WordFacts();
    w := new Mpi();
    r := new Mpi();
    SubInt(w, x, 1);
    s := Lsb(w);
    EvenHasTwos(w.Val());
    OddPartFacts(w.Val());
    Copy(r, w);
    ShiftR(r, s);
  }

  lemma EvenHasTwos(n: nat)
    requires n > 0 && n % 2 == 0
    ensures TrailingZeros(n) > 0
  {}

  /** One witness, drawn from number i0 on, and its verdict. */
  method DrawAndTest(a: Mpi, x: Mpi, w: Mpi, r: Mpi, s: nat, rr: Mpi, source: nat -> seq<Limb>, i0: nat)
    returns (ret: Status, i: nat)
    requires Setup(x, w, r, s) && x.p.Length > 0
    requires {a, rr} !! {x, w, r} && {a.p, rr.p} !! {x.p, w.p, r.p} && a != rr && a.p != rr.p
    requires rr.p.Length > 0 ==> SquaredRadix(rr, x)
    requires (forall k :: |source(k)| == x.p.Length) && DrawsDefined(source, x.Val() - 1, x.p.Length, i0, 32)
    modifies a, a.p, rr
    ensures a.p == old(a.p) || fresh(a.p)
    ensures rr.p == old(rr.p) || fresh(rr.p)
    ensures i0 < i <= i0 + 32 && ret in {Success, NotAcceptable, BadInputData}
    ensures ret.Success? ==> SquaredRadix(rr, x) && rr.p !in {a.p, x.p, w.p, r.p}
    ensures ret.Success? || ret == BadInputData || !DryAt(source, x.Val() - 1, i0) ==>
      PickAt(source, x.Val() - 1, i0, i - 1)
    ensures ret == BadInputData <==> BitLen(x.Val()) > MaxBits && !DryAt(source, x.Val() - 1, i0)
    ensures ret == Success ==> BitLen(x.Val()) <= MaxBits && Supports(source, x.Val(), i - 1)
    ensures ret == NotAcceptable ==>
      DryAt(source, x.Val() - 1, i0) || (BitLen(x.Val()) <= MaxBits && !Supports(source, x.Val(), i - 1))
  {
    hide Nat, BPow, Pow2, BitLen, Drawn, Strong, TrailingZeros, OddPart, SquaredRadix, DrawValue;
    var ok: bool;
    ok, i := PickWitness(a, x, w, source, i0);
    if !ok { return NotAcceptable, i; }
    PickedInTime(source, x.Val() - 1, i0, i - 1, a.Val());
    var status, passed := Round(a, x, w, r, s, rr);
    ret := if status != Success then status else if passed then Success else NotAcceptable;
  }

  lemma PickedInTime(source: nat -> seq<Limb>, w: nat, from: nat, i: nat, v: int)
    requires from <= i < from + 31 && Unusable(source, w, from, i)
    requires v == Drawn(DrawValue(source, i), w) && 1 < v < w
    ensures PickAt(source, w, from, i) && !DryAt(source, w, from)
  {
    hide DrawValue, Drawn;
    assert Usable(DrawValue(source, i), w);
  }

  /** rounds witnesses, the first usable draws of the random source. A refusal means that a
      witness refutes x or that the source ran dry. */
  method MillerRabin(x: Mpi, rounds: nat, source: nat -> seq<Limb>) returns (ret: Status)
    requires x.Valid() && x.Val() > 2 && x.Val() % 2 == 1
    requires (forall k :: |source(k)| == x.p.Length) && DrawsDefined(source, x.Val() - 1, x.p.Length, 0, 32 * rounds)
    ensures ret == Answer(source, x.Val(), rounds)
    ensures ret == NotAcceptable ==> Refuted(x.Val()) || RunsDry(source, x.Val() - 1, rounds)
    ensures ret == NotAcceptable && Prime(x.Val()) ==> RunsDry(source, x.Val() - 1, rounds)
  {
    hide Nat, BPow, Pow2, BitLen, Strong, Prime, TrailingZeros, OddPart, SquaredRadix;
    hide Unusable, DrawsDefined, Refuted, DryAt, PickAt, Picks, Supports;
    ghost var at: seq<nat> := [];
    ghost var n := x.Val();
    PrimeNotRefuted(n);
    NonZeroHasLimbs(x.p[..]);
    var w, r, s := Decompose(x);
    var a := new Mpi();
    var rr := new Mpi();
    var draw: nat := 0;
    NoPicks(source, n - 1);
    for i := 0 to rounds
      invariant fresh(a.p) && fresh(rr.p) && a.p != rr.p && {a.p, rr.p} !! {x.p, w.p, r.p}
      invariant Setup(x, w, r, s) && (rr.p.Length > 0 ==> SquaredRadix(rr, x))
      invariant |at| == i && draw == From(at, i) <= 32 * i
      invariant Picks(source, n - 1, at) && AllSupport(source, n, at) && (i > 0 ==> BitLen(n) <= MaxBits)
    {
      LaterDraws(source, n - 1, x.p.Length, rounds, draw);
      ghost var from := draw;
      ret, draw := DrawAndTest(a, x, w, r, s, rr, source, draw);
      if ret != Success {
        if ret == NotAcceptable {
          Refusal(source, n, from, draw - 1);
          StopsHere(source, n, rounds, at);
          assert !Refuted(n) ==> DryAt(source, n - 1, from);
        }
        return ret;
      }
      OneMorePick(source, n - 1, at, draw - 1);
      at := at + [draw - 1];
    }
    return Success;
  }

  lemma LaterDraws(source: nat -> seq<Limb>, w: nat, limbs: nat, rounds: nat, i: nat)
    requires DrawsDefined(source, w, limbs, 0, 32 * rounds) && i + 32 <= 32 * rounds
    ensures DrawsDefined(source, w, limbs, i, 32)
  {
    hide MaskDefined;
  }

  lemma NoPicks(source: nat -> seq<Limb>, w: nat)
    ensures Picks(source, w, [])
  {}

  /** A drawn witness that does not support n refutes it. */
  lemma Refusal(source: nat -> seq<Limb>, n: nat, from: nat, i: nat)
    requires n > 2
    ensures PickAt(source, n - 1, from, i) && !Supports(source, n, i) ==> Refuted(n)
  {
    hide Strong, Drawn, DrawValue;
  }

  lemma PrimeNotRefuted(n: nat)
    requires n > 2
    ensures Prime(n) ==> !Refuted(n)
  {
    hide Strong;
    if Prime(n) && Refuted(n) {
      var a :| 1 < a < n - 1 && !Strong(n, a);
      ModSmall(a, n);
      PrimeIsStrong(n, a);
    }
  }

  // ---------- small divisors ----------

  /** The odd primes below 1000, closed by a negative entry. */
  const SmallPrime: seq<int> := Row0 + Row1 + Row2 + Row3 + Row4 + Row5 + Row6

  const Row0 := [3, 5, 7, 11, 13, 17, 19, 23, 29, 31, 37, 41,
                43, 47, 53, 59, 61, 67, 71, 73, 79, 83, 89, 97]
  const Row1 := [101, 103, 107, 109, 113, 127, 131, 137, 139, 149, 151, 157,
                163, 167, 173, 179, 181, 191, 193, 197, 199, 211, 223, 227]
  const Row2 := [229, 233, 239, 241, 251, 257, 263, 269, 271, 277, 281, 283,
                293, 307, 311, 313, 317, 331, 337, 347, 349, 353, 359, 367]
  const Row3 := [373, 379, 383, 389, 397, 401, 409, 419, 421, 431, 433, 439,
                443, 449, 457, 461, 463, 467, 479, 487, 491, 499, 503, 509]
  const Row4 := [521, 523, 541, 547, 557, 563, 569, 571, 577, 587, 593, 599,
                601, 607, 613, 617, 619, 631, 641, 643, 647, 653, 659, 661]
  const Row5 := [673, 677, 683, 691, 701, 709, 719, 727, 733, 739, 743, 751,
                757, 761, 769, 773, 787, 797, 809, 811, 821, 823, 827, 829]
  const Row6 := [839, 853, 857, 859, 863, 877, 881, 883, 887, 907, 911, 919,
                929, 937, 941, 947, 953, 967, 971, 977, 983, 991, 997, -103]

  datatype Factors = NoSmallFactor | CertainPrime | Composite

  predicate Between(s: seq<int>) { forall i :: 0 <= i < |s| ==> 1 < s[i] <= 997 }

  lemma FirstRows()
    ensures |Row0| == |Row1| == |Row2| == |Row3| == 24
    ensures Between(Row0) && Between(Row1) && Between(Row2) && Between(Row3)
  {}

  lemma LastRows()
    ensures |Row4| == |Row5| == |Row6| == 24
    ensures Between(Row4) && Between(Row5) && Between(Row6[..23]) && Row6[23] == -103
  {}

  /** Every entry but the last is between 2 and 997. */
  lemma TableRange()
    ensures |SmallPrime| == 168 && SmallPrime[167] == -103
    ensures forall i :: 0 <= i < 167 ==> 1 < SmallPrime[i] <= 997
  {
    hide Row0, Row1, Row2, Row3, Row4, Row5, Row6;
    FirstRows();
    LastRows();
  }

  lemma TableHead()
    ensures |SmallPrime| == 168
    ensures SmallPrime[0] == 3 && SmallPrime[1] == 5 && SmallPrime[2] == 7 && SmallPrime[3] == 11
    ensures SmallPrime[4] == 13 && SmallPrime[5] == 17 && SmallPrime[6] == 19 && SmallPrime[7] == 23
    ensures SmallPrime[8] == 29 && SmallPrime[9] == 31 && SmallPrime[166] == 997
  {
    assert Row0[0] == 3 && Row0[1] == 5 && Row0[2] == 7 && Row0[3] == 11 && Row0[4] == 13;
  }

  /** None of the first i table entries divides x. */
  ghost predicate Undivided(x: int, i: nat) {
    i <= |SmallPrime| && forall j :: 0 <= j < i && SmallPrime[j] > 0 ==> x % SmallPrime[j] != 0
  }

  /** A number without prime factors up to 31 has no factors up to 31 at all. */
  lemma SieveTo31(x: int, m: int)
    requires 2 <= m <= 31 && x % m == 0
    ensures x % 2 == 0 || x % 3 == 0 || x % 5 == 0 || x % 7 == 0 || x % 11 == 0 || x % 13 == 0
            || x % 17 == 0 || x % 19 == 0 || x % 23 == 0 || x % 29 == 0 || x % 31 == 0
  {
    SieveCases(m);
    if m % 2 == 0 {
      FactorOfFactor(x, m, 2);
    } else if m % 3 == 0 {
      FactorOfFactor(x, m, 3);
    } else if m % 5 == 0 {
      FactorOfFactor(x, m, 5);
    }
  }

  lemma SieveCases(m: int)
    requires 2 <= m <= 31
    ensures m % 2 == 0 || m % 3 == 0 || m % 5 == 0 || m in {7, 11, 13, 17, 19, 23, 29, 31}
  {}

  lemma FactorOfFactor(x: int, m: int, q: int)
    requires m > 0 && q > 0 && x % m == 0 && m % q == 0
    ensures x % q == 0
  {
    DivModFacts(x, m);
    DivModFacts(m, q);
    MulAssoc(x / m, m / q, q);
    DivModUnique(x, x / m * (m / q), 0, q);
  }

  lemma NoSmallDivisor(x: int, i: nat, m: int)
    requires x > 2 && x % 2 == 1 && i < 167 && x <= SmallPrime[i] && Undivided(x, i)
    requires 2 <= m <= 31 && m * m <= x
    ensures x % m != 0
  {
    if i < 10 {
      FewTried(x, i, m);
    } else if x % m == 0 {
      SieveTo31(x, m);
      TriedAll(x, i);
    }
  }

  /** x is at most 31, so m is at most 5; and when x is 9 or more, 3 and 5 have been tried. */
  lemma FewTried(x: int, i: nat, m: int)
    requires x > 2 && x % 2 == 1 && i < 10 && x <= SmallPrime[i] && Undivided(x, i)
    requires 2 <= m && m * m <= x
    ensures x % m != 0
  {
    hide Undivided;
    TableHead();
    SmallRoot(m, x);
    if m == 2 {
    } else if m == 4 {
      assert x % 4 % 2 == 1;
    } else {
      assert x >= 9 && i >= 3;
      TriedTwo(x, i);
    }
  }

  lemma SmallRoot(m: int, x: int)
    requires 2 <= m && m * m <= x <= 31
    ensures m <= 5 && (m >= 3 ==> x >= 9)
  {
    if m >= 6 { MulMono(6, m, m); } else if m >= 3 { MulMono(3, m, m); }
  }

  lemma TriedTwo(x: int, i: nat)
    requires i >= 2 && Undivided(x, i)
    ensures x % 3 != 0 && x % 5 != 0
  {
    TableHead();
    assert x % SmallPrime[0] != 0 && x % SmallPrime[1] != 0;
  }

  lemma TriedAll(x: int, i: nat)
    requires i >= 10 && Undivided(x, i)
    ensures x % 3 != 0 && x % 5 != 0 && x % 7 != 0 && x % 11 != 0 && x % 13 != 0
    ensures x % 17 != 0 && x % 19 != 0 && x % 23 != 0 && x % 29 != 0 && x % 31 != 0
  {
    TableHead();
    assert x % SmallPrime[0] != 0 && x % SmallPrime[1] != 0 && x % SmallPrime[2] != 0;
    assert x % SmallPrime[3] != 0 && x % SmallPrime[4] != 0 && x % SmallPrime[5] != 0;
    assert x % SmallPrime[6] != 0 && x % SmallPrime[7] != 0 && x % SmallPrime[8] != 0;
    assert x % SmallPrime[9] != 0;
  }

  /** The early exit: an odd number up to the i-th table prime that none of the earlier ones
      divides is prime. */
  lemma CertainlyPrime(x: int, i: nat)
    requires x > 2 && x % 2 == 1 && i < 167 && x <= SmallPrime[i] && Undivided(x, i)
    ensures Prime(x)
  {
    hide SmallPrime;
    TableRange();
    forall d | 1 < d < x ensures x % d != 0 {
      if x % d == 0 {
        var e := x / d;
        DivModFacts(x, d);
        Cofactor(x, d, e);
        var m := if d <= e then d else e;
        MulMono(m, e, m);
        MulMono(m, d, e);
        if m >= 32 { MulMono(32, m, m); MulMono(32, m, 32); }
        DivModUnique(x, d, 0, e);
        NoSmallDivisor(x, i, m);
      }
    }
  }

  lemma Cofactor(x: int, d: int, e: int)
    requires 1 < d < x && x == d * e
    ensures 1 < e < x && d * e == e * d
  {
    if e <= 1 { MulMono(e, 1, d); }
    MulMono(2, d, e);
  }

  /** Odd, and no odd prime up to 997 divides it. */
  ghost predicate Sieved(x: int) { x % 2 == 1 && Undivided(x, 168) }

  method CheckSmallFactors(x: Mpi) returns (f: Factors)
    requires x.Valid() && x.Val() > 2
    ensures f.CertainPrime? ==> Prime(x.Val()) && x.Val() <= 997
    ensures f.Composite? ==> !Prime(x.Val()) && !Sieved(x.Val())
    ensures f.NoSmallFactor? ==> x.Val() > 997 && x.Val() % 2 == 1 && Sieved(x.Val())
  {
    hide Nat, BPow, SmallPrime, Prime, Sieved, Undivided;
    WordFacts();
    TableRange();
    TableHead();
    ghost var n := x.Val();
    NonZeroHasLimbs(x.p[..]);
    NatParity(x.p[..]);
    if x.p[0] % 2 == 0 {
      NotPrime(n, 2);
      NotSieved(n, 0);
      return Composite;
    }
    NoneTried(n);
    var i: nat := 0;
    while SmallPrime[i] > 0
      invariant i <= 167 && Undivided(n, i) && (i > 0 ==> n > SmallPrime[i - 1]) && n % 2 == 1
      decreases 168 - i
    {
      var c := CmpInt(x, SmallPrime[i]);
      if c <= 0 {
        CertainlyPrime(n, i);
        return CertainPrime;
      }
      var ret, r := ModInt(x, SmallPrime[i]);
      if r == 0 {
        NotPrime(n, SmallPrime[i]);
        NotSieved(n, i);
        return Composite;
      }
      OneMoreTried(n, i);
      i := i + 1;
    }
    AllTried(n, i);
    return NoSmallFactor;
  }

  lemma NotSieved(n: int, i: nat)
    requires i < 167
    ensures n % 2 == 0 ==> !Sieved(n)
    ensures SmallPrime[i] > 0 && n % SmallPrime[i] == 0 ==> !Sieved(n)
  {
    hide SmallPrime;
    TableRange();
  }

  lemma NoneTried(n: int)
    ensures Undivided(n, 0)
  {}

  lemma OneMoreTried(n: int, i: nat)
    requires Undivided(n, i) && i < 167 && SmallPrime[i] > 0 && n % SmallPrime[i] != 0
    ensures Undivided(n, i + 1)
  {
    hide SmallPrime;
    TableRange();
  }

  /** The loop ends at the closing entry only. */
  lemma AllTried(n: int, i: nat)
    requires Undivided(n, i) && i <= 167 && SmallPrime[i] <= 0 && n % 2 == 1
    ensures i == 167 && Sieved(n)
  {
    hide SmallPrime;
    TableRange();
  }

  lemma NotPrime(n: int, d: int)
    requires 1 < d < n && n % d == 0
    ensures !Prime(n)
  {}

  /** The primality test: of |x|, whatever the sign. Up to 997 the answer is exact; above, a
      number with a small factor is refused and the witnesses decide about the others. */
  method IsPrimeExt(x: Mpi, rounds: nat, source: nat -> seq<Limb>) returns (ret: Status)
    requires x.Valid() && forall k :: |source(k)| == x.p.Length
    requires x.Mag() > 997 && Sieved(x.Mag()) ==>
      DrawsDefined(source, x.Mag() - 1, x.p.Length, 0, 32 * rounds)
    ensures x.Mag() <= 997 ==> ret == if Prime(x.Mag()) then Success else NotAcceptable
    ensures x.Mag() > 997 ==>
      ret == if Sieved(x.Mag()) then Answer(source, x.Mag(), rounds) else NotAcceptable
    ensures ret == NotAcceptable && Prime(x.Mag()) ==> RunsDry(source, x.Mag() - 1, rounds)
  {
    hide Nat, BPow, BitLen, Prime, Passes, Undivided, SmallPrime, DrawsDefined, Answer, Sieved;
    WordFacts();
    var xx := new Mpi();
    xx.s := 1;
    xx.p := x.p;
    TinyNumbers();
    var zero := CmpInt(xx, 0);
    var one := CmpInt(xx, 1);
    if zero == 0 || one == 0 { return NotAcceptable; }
    var two := CmpInt(xx, 2);
    if two == 0 { return Success; }
    var f := CheckSmallFactors(xx);
    if f == CertainPrime { return Success; }
    if f == Composite { return NotAcceptable; }
    ret := MillerRabin(xx, rounds, source);
  }

  lemma TinyNumbers()
    ensures !Prime(0) && !Prime(1) && Prime(2)
  {}
}
