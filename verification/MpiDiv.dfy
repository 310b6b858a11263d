/** Long division of MPIs (HAC 14.20): quotient and remainder for every sign and size. */
module MpiDiv {
  import opened Arith
  import opened Words
  import opened Limbs
  import opened Mpis
  import opened MpiBits
  import opened MpiShift
  import opened MpiArith
  import opened IntDiv

  // ---------- estimating one quotient digit ----------

  /** A window of w limbs at position k, under zeros, fixes the number to within one unit. */
  lemma Window(s: seq<Limb>, k: nat, w: nat)
    requires k + w <= |s| && forall j :: k + w <= j < |s| ==> s[j] == 0
    ensures Nat(s[k..k + w]) * BPow(k) <= Nat(s) < (Nat(s[k..k + w]) + 1) * BPow(k)
  {
    hide *;
    NatSplit(s, k);
    NatBound(s[..k]);
    NatZeroTail(s[k..], w);
    assert s[k..][..w] == s[k..k + w];
    MulDist(Nat(s[k..k + w]) as int, 1, BPow(k));
  }

  /** The same for B * number, where position 0 is a zero limb below the number. */
  lemma ScaledWindow(s: seq<Limb>, k: nat, w: nat)
    requires 1 <= k + w <= |s| + 1 && Nat(s) < BPow(k + w - 1)
    ensures var v := Nat(([0] + s)[k..k + w]);
            v * BPow(k) <= B * Nat(s) < (v + 1) * BPow(k)
  {
    hide *;
    NatCons(0, s);
    BPowStep(k + w - 1);
    MulStrict(Nat(s), BPow(k + w - 1), B) by { WordFacts(); }
    NatFitsTail([0] + s, k + w);
    Window([0] + s, k, w);
  }

  lemma ScaleBounds(a: int, m: int, p: int, e: int)
    requires a * p <= m < (a + 1) * p && e > 0
    ensures a * (p * e) <= m * e < (a + 1) * (p * e)
  {
    MulMono(a * p, m, e);
    MulStrict(m, (a + 1) * p, e);
    MulAssoc(a, p, e);
    MulAssoc(a + 1, p, e);
  }

  /** No quotient digit is above an estimate from leading limbs. */
  lemma EstimateNotSmall(x: int, y: int, xw: int, yw: int, p: int, q: nat)
    requires p > 0 && x < (xw + 1) * p && yw * p <= y && q * y <= x
    ensures q * yw <= xw
  {
    MulMono(yw * p, y, q);
    MulAssoc(q, yw, p);
    MulCancelLt(q * yw, xw + 1, p);
  }

  /** Any estimate that passes the leading-limb test is at most one too large. */
  lemma EstimateNotBig(x: int, y: int, xw: int, yw: int, p: int, z: nat)
    requires p > 0 && xw * p <= x && y < (yw + 1) * p && 0 < y && z * yw <= xw && z <= yw + 1 && z > 0
    ensures (z - 1) * y <= x
  {
    MulMono(y, (yw + 1) * p, z - 1);
    MulAssoc(z - 1, yw + 1, p);
    MulDist(z, 1, yw + 1);
    MulDist(yw, 1, z);
    MulMono((z - 1) * (yw + 1), xw, p);
  }

  /** What the digit step may assume: running remainder x below divisor y at weight i - t. */
  ghost predicate DigitState(x: seq<Limb>, y: seq<Limb>, i: nat, t: nat)
  {
    t < i < |x| && t < |y| && y[t] > 0
    && Nat(y) < BPow(t + 1) && Nat(x) < Nat(y) * BPow(i - t)
  }

  /** The divisor at the weight of the digit being computed. */
  function Shifted(y: nat, i: nat, t: nat): nat
    requires t < i
  {
    MulMono(0, y, BPow(i - t - 1));
    y * BPow(i - t - 1)
  }

  lemma DigitStateFacts(x: seq<Limb>, y: seq<Limb>, i: nat, t: nat)
    requires DigitState(x, y, i, t)
    ensures Shifted(Nat(y), i, t) > 0
    ensures Nat(x) < B * Shifted(Nat(y), i, t) && Nat(x) < BPow(i + 1)
    ensures forall j :: i < j < |x| ==> x[j] == 0
    ensures forall j :: t < j < |y| ==> y[j] == 0
  {
    hide Nat, BPow, Pow2;
    NatFitsTail(y, t + 1);
    NatAtLeast(y, t);
    BPowStep(i - t - 1);
    MulAssoc(Nat(y), BPow(i - t - 1), B);
    BPowAdd(t + 1, i - t);
    MulStrict(Nat(y), BPow(t + 1), BPow(i - t));
    MulPos(Nat(y), BPow(i - t - 1));
    NatFitsTail(x, i + 1);
  }

  /** The w + 1 top limbs of the remainder and the w top limbs of the divisor, zeros
      standing in below either number. */
  function XWindow(x: seq<Limb>, i: nat, w: nat): seq<Limb>
    requires w <= 2 && 0 < i < |x|
  {
    ([0] + x)[i + 1 - w..i + 2]
  }

  function YWindow(y: seq<Limb>, t: nat, w: nat): seq<Limb>
    requires w <= 2 && t < |y|
  {
    ([0] + y)[t + 2 - w..t + 2]
  }

  /** Both windows bound their numbers at the same scale. */
  lemma DigitWindows(x: seq<Limb>, y: seq<Limb>, i: nat, t: nat, w: nat)
    requires DigitState(x, y, i, t) && 1 <= w <= 2
    ensures var xw, yw, p := Nat(XWindow(x, i, w)), Nat(YWindow(y, t, w)), BPow(i + 1 - w);
            xw * p <= B * Nat(x) < (xw + 1) * p
            && yw * p <= B * Shifted(Nat(y), i, t) < (yw + 1) * p
  {
    hide Nat, BPow, Pow2;
    DigitStateFacts(x, y, i, t);
    ScaledWindow(x, i + 1 - w, w + 1);
    ScaledWindow(y, t + 2 - w, w);
    ScaleBounds(Nat(YWindow(y, t, w)), B * Nat(y), BPow(t + 2 - w), BPow(i - t - 1));
    BPowAdd(t + 2 - w, i - t - 1);
    MulAssoc(B, Nat(y), BPow(i - t - 1));
  }

  /** The true digit. */
  function Digit(x: nat, y: nat, i: nat, t: nat): int
    requires t < i && Shifted(y, i, t) > 0
  {
    x / Shifted(y, i, t)
  }

  /** The true digit fits in a limb and passes every leading-limb test. */
  lemma DigitPasses(x: seq<Limb>, y: seq<Limb>, i: nat, t: nat, w: nat)
    requires DigitState(x, y, i, t) && 1 <= w <= 2
    ensures Shifted(Nat(y), i, t) > 0
    ensures var q := Digit(Nat(x), Nat(y), i, t);
            0 <= q < B && q * Nat(YWindow(y, t, w)) <= Nat(XWindow(x, i, w))
  {
    hide Nat, BPow, Pow2, Shifted, XWindow, YWindow;
    DigitStateFacts(x, y, i, t);
    DigitWindows(x, y, i, t, w);
    var d := Shifted(Nat(y), i, t);
    var q := Digit(Nat(x), Nat(y), i, t);
    DivLess(Nat(x), d, B);
    QuotientTest(Nat(x), d, q);
    MulAssoc(B, q, d);
    MulMono(q * d, Nat(x), B);
    EstimateNotSmall(B * Nat(x), B * d, Nat(XWindow(x, i, w)), Nat(YWindow(y, t, w)), BPow(i + 1 - w), q);
  }

  /** Any limb that passes the three-limb test is at most one above the true digit. */
  lemma DigitClose(x: seq<Limb>, y: seq<Limb>, i: nat, t: nat, z: Limb)
    requires DigitState(x, y, i, t)
    requires z * Nat(YWindow(y, t, 2)) <= Nat(XWindow(x, i, 2))
    ensures Shifted(Nat(y), i, t) > 0
    ensures z <= Digit(Nat(x), Nat(y), i, t) + 1
  {
    hide Nat, BPow, Pow2, Shifted, XWindow, YWindow;
    DigitStateFacts(x, y, i, t);
    DigitWindows(x, y, i, t, 2);
    var d := Shifted(Nat(y), i, t);
    YWindowBig(y, t);
    DivLess(Nat(x), d, B);
    if z > 0 {
      MulPos(B, d) by { WordFacts(); }
      EstimateNotBig(B * Nat(x), B * d, Nat(XWindow(x, i, 2)), Nat(YWindow(y, t, 2)), BPow(i - 1), z);
      MulAssoc(B, z - 1, d);
      MulCancelLe((z - 1) * d, Nat(x), B) by { WordFacts(); }
      QuotientTest(Nat(x), d, z - 1);
    }
  }

  lemma YWindowBig(y: seq<Limb>, t: nat)
    requires t < |y| && y[t] > 0
    ensures Nat(YWindow(y, t, 2)) >= B
  {
    hide Nat, BPow, Pow2;
    var lo: Limb := if t < 1 then 0 else y[t - 1];
    assert YWindow(y, t, 2) == [lo, y[t]];
    NatPair(lo, y[t]);
    MulMono(1, y[t], B);
  }

  lemma XWindowLimbs(x: seq<Limb>, i: nat)
    requires 0 < i < |x|
    ensures XWindow(x, i, 1) == [x[i - 1], x[i]]
    ensures XWindow(x, i, 2) == [if i < 2 then 0 else x[i - 2], x[i - 1], x[i]]
  {}

  // ---------- the digit loop ----------

  /** The two top limbs of the divisor, as an MPI in scratch. */
  method LoadTopTwo(t1: Mpi, y: Mpi, t: nat)
    requires t1.p.Length >= 2 && t1.p != y.p && t < y.p.Length
    modifies t1, t1.p
    ensures t1.p == old(t1.p) && t1.Valid() && t1.s == 1
    ensures t1.Mag() == Nat(YWindow(y.p[..], t, 2))
  {
    hide Nat, BPow, Pow2, Used;
    WordFacts();
    Lset0(t1);
    t1.p[0] := if t < 1 then 0 else y.p[t - 1];
    t1.p[1] := y.p[t];
    YWindowLimbs(y.p[..], t);
    NatZeroTail(t1.p[..], 2);
    assert t1.p[..][..2] == YWindow(y.p[..], t, 2);
  }

  /** lset(x, 0) on a buffer that exists. */
  method Lset0(x: Mpi)
    requires x.p.Length >= 1
    modifies x, x.p
    ensures x.p == old(x.p) && x.s == 1
    ensures forall k :: 0 <= k < x.p.Length ==> x.p[k] == 0
  {
    forall k | 0 <= k < x.p.Length { x.p[k] := 0; }
    x.s := 1;
  }

  lemma YWindowLimbs(y: seq<Limb>, t: nat)
    requires t < |y|
    ensures YWindow(y, t, 1) == [y[t]]
    ensures YWindow(y, t, 2) == [if t < 1 then 0 else y[t - 1], y[t]]
  {}

  method LoadTopThree(x: Mpi, i: nat) returns (t2: Mpi)
    requires 0 < i < x.p.Length
    ensures fresh(t2) && fresh(t2.p) && t2.Valid() && t2.s == 1
    ensures t2.Mag() == Nat(XWindow(x.p[..], i, 2))
  {
    hide Nat, BPow, Pow2, XWindow;
    XWindowLimbs(x.p[..], i);
    t2 := new Mpi();
    t2.p := new Limb[3];
    t2.p[0] := if i < 2 then 0 else x.p[i - 2];
    t2.p[1] := x.p[i - 1];
    t2.p[2] := x.p[i];
    assert t2.p[..] == XWindow(x.p[..], i, 2);
  }

  /** The first guess for a digit, from one divisor limb. */
  method FirstGuess(x: Mpi, y: Mpi, i: nat, t: nat) returns (z: Limb)
    requires DigitState(x.p[..], y.p[..], i, t)
    ensures Shifted(y.Mag(), i, t) > 0 && Digit(x.Mag(), y.Mag(), i, t) <= z
  {
    hide Nat, BPow, Pow2, Shifted, Digit;
    WordFacts();
    DigitPasses(x.p[..], y.p[..], i, t, 1);
    if x.p[i] >= y.p[t] {
      z := B - 1;
    } else {
      var rem;
      z, rem := IntDivInt(x.p[i], x.p[i - 1], y.p[t]);
      GuessBound(x.p[..], y.p[..], i, t, z);
    }
  }

  /** The quotient of two limbs by one is no smaller than the digit. */
  lemma GuessBound(x: seq<Limb>, y: seq<Limb>, i: nat, t: nat, z: Limb)
    requires 0 < i < |x| && t < |y| && DigitState(x, y, i, t) && x[i] < y[t]
    requires z == (x[i] * B + x[i - 1]) / y[t]
    ensures Shifted(Nat(y), i, t) > 0 && Digit(Nat(x), Nat(y), i, t) <= z
  {
    hide *;
    DigitStateBounds(x, y, i, t);
    DigitPasses(x, y, i, t, 1);
    var xw, yw := Nat(XWindow(x, i, 1)), Nat(YWindow(y, t, 1));
    assert xw == x[i] * B + x[i - 1] by { XWindowLimbs(x, i); NatPair(x[i - 1], x[i]); }
    assert yw == y[t] by { YWindowLimbs(y, t); NatSingle(y[t]); }
    QuotientTest(xw, yw, Digit(Nat(x), Nat(y), i, t));
  }

  lemma DigitStateBounds(x: seq<Limb>, y: seq<Limb>, i: nat, t: nat)
    requires DigitState(x, y, i, t)
    ensures t < i < |x| && t < |y|
  {}

  /** The body of the correction loop: does the guess fail the three-limb test? */
  method TooBig(t1: Mpi, t2: Mpi, y: Mpi, t: nat, z: Limb) returns (big: bool)
    requires t1.p.Length >= 2 && t1.p != y.p && t1.p != t2.p && t1 != t2 && t < y.p.Length
    requires t2.Valid() && t2.s == 1
    modifies t1, t1.p
    ensures t1.p == old(t1.p) || fresh(t1.p)
    ensures t1.Valid() && t1.p.Length >= 2
    ensures big <==> z * Nat(YWindow(y.p[..], t, 2)) > t2.Mag()
  {
    hide Nat, BPow, Pow2, YWindow, Used;
    LoadTopTwo(t1, y, t);
    MulInt(t1, t1, z);
    var c := CmpMpi(t1, t2);
    big := c > 0;
  }

  /** Lower the guess until it passes the three-limb test. */
  method EstimateDigit(x: Mpi, y: Mpi, t1: Mpi, i: nat, t: nat) returns (z: Limb)
    requires x.p != t1.p && y.p != t1.p && x != t1 && y != t1
    requires DigitState(x.p[..], y.p[..], i, t) && t1.Valid() && t1.p.Length >= 2
    modifies t1, t1.p
    ensures t1.p == old(t1.p) || fresh(t1.p)
    ensures t1.Valid() && t1.p.Length >= 2
    ensures t < i && Shifted(y.Mag(), i, t) > 0
    ensures Digit(x.Mag(), y.Mag(), i, t) <= z <= Digit(x.Mag(), y.Mag(), i, t) + 1
  {
    hide Nat, BPow, Pow2, Shifted, Digit, XWindow, YWindow, Used, DigitState, SubW, AddW;
    ghost var xs, ys := x.p[..], y.p[..];
    DigitIndex(xs, ys, i, t);
    z := FirstGuess(x, y, i, t);
    ghost var q := Digit(Nat(xs), Nat(ys), i, t);
    ghost var yw, xw := Nat(YWindow(ys, t, 2)), Nat(XWindow(xs, i, 2));
    DigitPasses(xs, ys, i, t, 2);
    var t2 := LoadTopThree(x, i);
    ghost var guess: Limb := z;
    WordFacts();
    NextGuess(z);
    z := AddW(z, 1);
    var more := true;
    while more
      invariant t1.p == old(t1.p) || fresh(t1.p)
      invariant t1.Valid() && t1.p.Length >= 2 && t1.p != t2.p
      invariant t2.Valid() && t2.s == 1 && t2.Mag() == xw && y.p[..] == ys
      invariant q <= guess
      invariant more ==> SubW(z, 1) == guess
      invariant !more ==> z == guess && guess * yw <= xw
      decreases if more then guess + 1 else 0
    {
      z := SubW(z, 1);
      more := TooBig(t1, t2, y, t, z);
      if more {
        assert guess != q;
        guess := guess - 1;
        NextGuess(z);
      }
    }
    DigitClose(xs, ys, i, t, z);
  }

  lemma DigitIndex(x: seq<Limb>, y: seq<Limb>, i: nat, t: nat)
    requires DigitState(x, y, i, t)
    ensures t < i < |x| && t < |y|
  {}

  lemma NextGuess(z: Limb)
    ensures SubW(AddW(z, 1), 1) == z
    ensures z > 0 ==> SubW(z, 1) == z - 1
  {
    hide Pow2;
    WordFacts();
    AddCarry(z, 1);
    SubBorrow(AddW(z, 1), 1);
    SubBorrow(z, 1);
  }

  lemma ShiftIsBPow(k: nat)
    ensures biL * k >= 0 && Pow2(biL * k) == BPow(k)
  {
    BPowIsPow2(k);
  }

  /** One too many shows up as a negative remainder, and only then. */
  lemma DigitOrOneMore(x: nat, d: nat, z: nat)
    requires d > 0 && x / d <= z <= x / d + 1
    ensures x - z * d < 0 <==> z == x / d + 1
    ensures z == x / d + 1 ==> x - z * d + d == x % d
    ensures z == x / d ==> x - z * d == x % d
  {
    DivModFacts(x, d);
    MulDist(x / d, 1, d);
  }

  /** t1 = y * z at the weight of the digit. */
  method LoadMultiple(t1: Mpi, y: Mpi, z: Limb, i: nat, t: nat)
    requires y.p != t1.p && y != t1 && y.Valid() && y.s == 1 && t1.Valid() && t < i
    modifies t1, t1.p
    ensures t1.p == old(t1.p) || fresh(t1.p)
    ensures t1.Valid() && t1.p.Length >= old(t1.p.Length)
    ensures t1.Val() == z * Shifted(y.Mag(), i, t)
  {
    hide Nat, BPow, Pow2, Used, BitLen, Shifted;
    LoadedMultiple(z, y.Mag(), i, t);
    MulInt(t1, y, z);
    ShiftL(t1, biL * (i - t - 1));
  }

  lemma LoadedMultiple(z: Limb, m: nat, i: nat, t: nat)
    requires t < i
    ensures z * m >= 0 && biL * (i - t - 1) >= 0
    ensures z * m * Pow2(biL * (i - t - 1)) == z * Shifted(m, i, t)
  {
    hide BPow, Pow2, Shifted;
    ShiftIsBPow(i - t - 1);
    MulMono(0, z, m);
    MulAssoc(z, m, BPow(i - t - 1));
    ShiftedIs(m, i, t);
  }

  /** t1 = y at the weight of the digit. */
  method LoadShifted(t1: Mpi, y: Mpi, i: nat, t: nat)
    requires y.p != t1.p && y != t1 && y.Valid() && y.s == 1 && t1.Valid() && t < i
    modifies t1, t1.p
    ensures t1.p == old(t1.p) || fresh(t1.p)
    ensures t1.Valid() && t1.p.Length >= old(t1.p.Length)
    ensures t1.Val() == Shifted(y.Mag(), i, t)
  {
    hide Nat, BPow, Pow2, Used, BitLen, Shifted;
    ShiftIsBPow(i - t - 1);
    WordFacts();
    NatEmpty();
    Copy(t1, y);
    if y.p.Length == 0 { assert y.p[..] == []; }
    ShiftL(t1, biL * (i - t - 1));
    ShiftedIs(y.Mag(), i, t);
  }

  lemma ShiftedIs(y: nat, i: nat, t: nat)
    requires t < i
    ensures Shifted(y, i, t) == y * BPow(i - t - 1)
  {}

  /** Subtract the estimated multiple of the divisor, and put one divisor back if that
      went below zero: the running remainder is reduced exactly. */
  method SubtractDigit(x: Mpi, y: Mpi, t1: Mpi, i: nat, t: nat, z0: Limb) returns (z: Limb)
    requires x.p != t1.p && y.p != t1.p && x.p != y.p && x != t1 && y != t1 && x != y
    requires x.Valid() && x.s == 1 && y.Valid() && y.s == 1 && t1.Valid() && t1.p.Length >= 2
    requires t < i && Shifted(y.Mag(), i, t) > 0
    requires Digit(x.Mag(), y.Mag(), i, t) <= z0 <= Digit(x.Mag(), y.Mag(), i, t) + 1
    modifies x, x.p, t1, t1.p
    ensures x.p == old(x.p) || fresh(x.p)
    ensures t1.p == old(t1.p) || fresh(t1.p)
    ensures x.p != t1.p && x.Valid() && x.s == 1 && t1.Valid() && t1.p.Length >= 2
    ensures x.p.Length >= old(x.p.Length)
    ensures z == Digit(old(x.Mag()), y.Mag(), i, t)
    ensures x.Mag() == old(x.Mag()) % Shifted(y.Mag(), i, t)
  {
    hide Nat, BPow, Pow2, Used, BitLen, Shifted;
    z := z0;
    WordFacts();
    ghost var m, d := x.Mag(), Shifted(y.Mag(), i, t);
    DigitOrOneMore(m, d, z);
    QuotientTest(m, d, 0);
    DivModFacts(m, d);
    LoadMultiple(t1, y, z, i, t);
    SubMpi(x, x, t1);
    var c := CmpInt(x, 0);
    if c < 0 {
      LoadShifted(t1, y, i, t);
      AddMpi(x, x, t1);
      z := z - 1;
    }
  }

  /** Nothing is lost: quotient so far times divisor, plus what remains. */
  ghost predicate Conserved(z: nat, y: nat, x: nat, total: nat)
  {
    z * y + x == total
  }

  lemma ConservedStep(z: seq<Limb>, k: nat, v: Limb, y: nat, x: nat, x': nat, total: nat)
    requires k < |z| && Conserved(Nat(z), y, x, total)
    requires x == (v - z[k]) * (y * BPow(k)) + x'
    ensures Conserved(Nat(z[k := v]), y, x', total)
  {
    hide Nat, BPow, Pow2;
    NatUpdate(z, k, v);
    var e: int := v - z[k];
    MulDist(Nat(z), e * BPow(k), y);
    MulAssoc(e, BPow(k), y);
  }

  lemma LeadingRoom(z: seq<Limb>, k: nat, y: nat, x: nat, total: nat, n: nat, t: nat)
    requires k < |z| && Conserved(Nat(z), y, x, total) && total < BPow(n + 1)
    requires k + t == n && BPow(t) <= y && y * BPow(k) <= x
    ensures z[k] + 1 < B
  {
    hide Nat, BPow, Pow2;
    NatAtLeast(z, k);
    BPowAdd(t, k);
    BPowStep(n);
    RoomForOne(z[k], BPow(k), Nat(z), y, x, BPow(t), B);
  }

  /** y fits once more beside v times the weight w, so v is not the largest digit. */
  lemma RoomForOne(v: nat, w: nat, z: nat, y: nat, x: nat, p: nat, b: nat)
    requires v * w <= z && p <= y && y * w <= x && z * y + x < b * (p * w)
    ensures v + 1 < b
  {
    MulMono(v * w, z, y);
    MulAssoc(v, w, y);
    MulDist(v, 1, y * w);
    MulMono(p, y, w);
    MulMono(p * w, y * w, v + 1);
    MulCancelLt(v + 1, b, p * w);
  }

  /** The leading digit, by repeated subtraction of the divisor at its highest weight. */
  method LeadingDigit(x: Mpi, y: Mpi, z: Mpi, n: nat, t: nat, ghost y0: nat, ghost total: nat)
    requires x.p != y.p && x.p != z.p && y.p != z.p && x != y && x != z
    requires x.Valid() && x.s == 1 && y.Valid() && y.s == 1
    requires t <= n && n - t < z.p.Length && y.Mag() == y0 * BPow(n - t)
    requires BPow(t) <= y0 && total < BPow(n + 1) && Conserved(z.Mag(), y0, x.Mag(), total)
    modifies x, x.p, z.p
    ensures x.p == old(x.p) || fresh(x.p)
    ensures x.Valid() && x.s == 1 && x.p.Length >= old(x.p.Length)
    ensures x.Mag() < y0 * BPow(n - t) && Conserved(z.Mag(), y0, x.Mag(), total)
    ensures forall k :: 0 <= k < n - t ==> z.p[k] == old(z.p[k])
  {
    hide Nat, BPow, Pow2, Used, Conserved;
    var c := CmpMpi(x, y);
    while c >= 0
      invariant x.p == old(x.p) || fresh(x.p)
      invariant x.Valid() && x.s == 1 && x.p.Length >= old(x.p.Length)
      invariant y.Mag() == y0 * BPow(n - t) && y.Valid()
      invariant Conserved(z.Mag(), y0, x.Mag(), total)
      invariant forall k :: 0 <= k < n - t ==> z.p[k] == old(z.p[k])
      invariant c == Sign(x.Val() - y.Val())
      decreases x.Mag()
    {
      ghost var zs, m := z.p[..], x.Mag();
      LeadingRoom(zs, n - t, y0, m, total, n, t);
      ModSmall(z.p[n - t] + 1, B);
      MulPos(y0, BPow(n - t));
      z.p[n - t] := (z.p[n - t] + 1) % B;
      SubMpi(x, x, y);
      assert z.p[..] == zs[n - t := zs[n - t] + 1];
      ConservedStep(zs, n - t, zs[n - t] + 1, y0, m, x.Mag(), total);
      c := CmpMpi(x, y);
    }
  }

  lemma EnterDigit(x: seq<Limb>, y: seq<Limb>, i: nat, t: nat)
    requires t < i < |x| && t < |y|
    requires BPow(t) <= Nat(y) < BPow(t + 1) && Nat(x) < Nat(y) * BPow(i - t)
    ensures DigitState(x, y, i, t)
  {
    hide Nat, BPow, Pow2;
    NatFitsTail(y, t + 1);
    NatTake(y, t);
    NatBound(y[..t]);
  }

  lemma LeaveDigit(z: seq<Limb>, k: nat, q: Limb, y: nat, x: nat, x': nat, total: nat, i: nat, t: nat)
    requires t < i && k == i - t - 1 && k < |z| && z[k] == 0
    requires Conserved(Nat(z), y, x, total) && Shifted(y, i, t) > 0
    requires q == Digit(x, y, i, t) && x' == x % Shifted(y, i, t)
    ensures Conserved(Nat(z[k := q]), y, x', total) && x' < y * BPow(k)
  {
    hide Nat, BPow, Pow2, Conserved;
    DivModFacts(x, Shifted(y, i, t));
    ConservedStep(z, k, q, y, x, x', total);
  }

  /** The main loop: one quotient limb per step, from the top down. */
  method DigitLoop(x: Mpi, y: Mpi, z: Mpi, t1: Mpi, n: nat, t: nat, ghost total: nat)
    requires x.p != y.p && x.p != z.p && y.p != z.p && x != y && x != z && y != z
    requires t1.p != x.p && t1.p != y.p && t1.p != z.p && t1 != x && t1 != y && t1 != z
    requires x.Valid() && x.s == 1 && y.Valid() && y.s == 1 && t1.Valid() && t1.p.Length >= 2
    requires t <= n < x.p.Length && t < y.p.Length && n - t <= z.p.Length
    requires BPow(t) <= y.Mag() < BPow(t + 1) && x.Mag() < y.Mag() * BPow(n - t)
    requires forall k :: 0 <= k < n - t ==> z.p[k] == 0
    requires Conserved(z.Mag(), y.Mag(), x.Mag(), total)
    modifies x, x.p, z.p, t1, t1.p
    ensures x.p == old(x.p) || fresh(x.p)
    ensures x.Valid() && x.s == 1
    ensures x.Mag() < y.Mag() && Conserved(z.Mag(), y.Mag(), x.Mag(), total)
  {
    hide Nat, BPow, Pow2, Used, Conserved, Shifted, Digit, DigitState;
    var i := n;
    while i > t
      invariant t <= i <= n
      invariant x.p == old(x.p) || fresh(x.p)
      invariant t1.p == old(t1.p) || fresh(t1.p)
      invariant t1.p != x.p && t1.Valid() && t1.p.Length >= 2
      invariant x.Valid() && x.s == 1 && n < x.p.Length
      invariant x.Mag() < y.Mag() * BPow(i - t)
      invariant forall k :: 0 <= k < i - t ==> z.p[k] == 0
      invariant Conserved(z.Mag(), y.Mag(), x.Mag(), total)
    {
      ghost var zs, m := z.p[..], x.Mag();
      EnterDigit(x.p[..], y.p[..], i, t);
      var d := EstimateDigit(x, y, t1, i, t);
      d := SubtractDigit(x, y, t1, i, t, d);
      z.p[i - t - 1] := d;
      assert z.p[..] == zs[i - t - 1 := d];
      LeaveDigit(zs, i - t - 1, d, y.Mag(), m, x.Mag(), total, i, t);
      i := i - 1;
    }
    NatEmpty();
  }

  lemma TopLimbPosition(s: seq<Limb>, bits: nat)
    requires bits == BitLen(Nat(s)) && bits > 0
    requires |s| > 0 && (|s| - 1) * biL < bits
    ensures BPow(|s| - 1) <= Nat(s) < BPow(|s|)
  {
    hide Nat, BPow, Pow2, BitLen;
    NatBound(s);
    BitLenBounds(Nat(s));
    BPowIsPow2(|s| - 1);
    Pow2Mono(biL * (|s| - 1), bits - 1);
  }

  lemma ShiftedBits(m: nat, k: nat)
    requires m > 0
    ensures BitLen(m * Pow2(k)) == BitLen(m) + k
  {
    hide Pow2, BitLen;
    BitLenBounds(m);
    Pow2Add(BitLen(m), k);
    Pow2Add(BitLen(m) - 1, k);
    MulStrict(m, Pow2(BitLen(m)), Pow2(k));
    MulMono(Pow2(BitLen(m) - 1), m, Pow2(k));
    BitLenUnique(m * Pow2(k), BitLen(m) + k);
  }

  lemma UsedBits(s: seq<Limb>)
    requires Nat(s) > 0
    ensures Used(s) > 0 && (Used(s) - 1) * biL < BitLen(Nat(s)) <= Used(s) * biL
  {
    hide Nat, BPow, Pow2, BitLen, Used;
    UsedBounds(s);
    BitLenBounds(Nat(s));
    BPowIsPow2(Used(s));
    BPowIsPow2(Used(s) - 1);
    Pow2Between(Nat(s), biL * (Used(s) - 1), BitLen(Nat(s)));
    Pow2Between(Nat(s), BitLen(Nat(s)) - 1, biL * Used(s));
  }

  lemma NonZeroHasLimbs(s: seq<Limb>)
    ensures Nat(s) > 0 ==> |s| > 0
  {}

  /** |v| shifted left by k, in exactly the limbs it needs. */
  method CopyShifted(v: Mpi, k: nat) returns (x: Mpi)
    requires v.Mag() > 0 && k < biL
    ensures fresh(x) && fresh(x.p) && x.Valid() && x.s == 1
    ensures x.Mag() == v.Mag() * Pow2(k)
    ensures 0 < x.p.Length <= v.p.Length + 1
    ensures BPow(x.p.Length - 1) <= x.Mag() < BPow(x.p.Length)
  {
    hide Nat, BPow, Pow2, BitLen, Used;
    NonZeroHasLimbs(v.p[..]);
    x := new Mpi();
    UsedBits(v.p[..]);
    Copy(x, v);
    x.s := 1;
    ShiftedBits(v.Mag(), k);
    if k > 0 { ShiftL(x, k); }
    Pow2Values();
    MulPos(v.Mag(), Pow2(k));
    TopLimbPosition(x.p[..], BitLen(v.Mag()) + k);
  }

  /** How far the divisor is shifted up, so that its top limb has exactly its highest bit
      but one set. */
  function NormShift(bits: nat): (k: nat)
    ensures k < biL && (bits + k) % biL == biL - 1
  {
    var k := bits % biL;
    DivModFacts(bits, biL);
    DivModUnique(bits + (biL - 1 - k), bits / biL, biL - 1, biL);
    if k < biL - 1 then biL - 1 - k else 0
  }

  lemma CommonScale(a: nat, b: nat, k: nat, z: nat, x: nat)
    requires b > 0 && Conserved(z, b * Pow2(k), x, a * Pow2(k)) && x < b * Pow2(k)
    ensures z == a / b && x == a % b * Pow2(k)
  {
    hide Pow2;
    var p := Pow2(k);
    ScaledDivision(a, b, p);
    DivModUnique(a * p, z, x, b * p);
  }

  /** The long division proper, for |a| >= |b| > 0: the quotient, and the remainder still
      shifted left by k. */
  method DivCore(a: Mpi, b: Mpi) returns (z: Mpi, x: Mpi, k: nat)
    requires a.Mag() >= b.Mag() > 0
    ensures fresh(z) && fresh(z.p) && fresh(x) && fresh(x.p) && x != z && x.p != z.p
    ensures z.Valid() && z.s == 1 && x.Valid() && x.s == 1 && k < biL
    ensures z.Mag() == a.Mag() / b.Mag() && x.Mag() == a.Mag() % b.Mag() * Pow2(k)
  {
    hide Nat, BPow, Pow2, BitLen, Used, Conserved;
    var bits := Bitlen(b);
    k := NormShift(bits);
    x := CopyShifted(a, k);
    var y := CopyShifted(b, k);
    z := new Mpi();
    Grow(z, a.p.Length + 2);
    var t1 := new Mpi();
    Grow(t1, a.p.Length + 2);
    NatZeroLimbs(z.p[..]);
    assert forall j :: 0 <= j < z.p.Length ==> z.p[j] == z.p[..][j];
    MulMono(b.Mag(), a.Mag(), Pow2(k));
    ghost var total, y0 := x.Mag(), y.Mag();
    DivRun(x, y, z, t1);
    CommonScale(a.Mag(), b.Mag(), k, z.Mag(), x.Mag());
  }

  method DivRun(x: Mpi, y: Mpi, z: Mpi, t1: Mpi)
    requires x.p != y.p && x.p != z.p && y.p != z.p && x != y && x != z && y != z
    requires t1.p != x.p && t1.p != y.p && t1.p != z.p && t1 != x && t1 != y && t1 != z
    requires x.Valid() && x.s == 1 && y.Valid() && y.s == 1 && t1.Valid() && t1.p.Length >= 2
    requires y.p.Length > 0 && x.p.Length < z.p.Length
    requires BPow(y.p.Length - 1) <= y.Mag() <= x.Mag()
    requires forall k :: 0 <= k < z.p.Length ==> z.p[k] == 0
    modifies x, x.p, y, y.p, z.p, t1, t1.p
    ensures x.p == old(x.p) || fresh(x.p)
    ensures x.Valid() && x.s == 1
    ensures x.Mag() < old(y.Mag()) && Conserved(z.Mag(), old(y.Mag()), x.Mag(), old(x.Mag()))
  {
    hide Nat, BPow, Pow2, BitLen, Used, Conserved;
    NatBound(x.p[..]);
    NatBound(y.p[..]);
    NatZeros(z.p[..]);
    var n, t := x.p.Length - 1, y.p.Length - 1;
    ghost var total, y0 := x.Mag(), y.Mag();
    ConservedStart(y0, total);
    if t > n { BPowMono(n + 1, t); }
    AlignedLeadingDigit(x, y, z, n, t, y0, total);
    DigitLoop(x, y, z, t1, n, t, total);
  }

  lemma ConservedStart(y: nat, total: nat)
    ensures Conserved(0, y, total, total)
  {}

  /** Divisor up to the top of the dividend, leading digit, divisor back down. */
  method AlignedLeadingDigit(x: Mpi, y: Mpi, z: Mpi, n: nat, t: nat, ghost y0: nat, ghost total: nat)
    requires x.p != y.p && x.p != z.p && y.p != z.p && x != y && x != z && y != z
    requires x.Valid() && x.s == 1 && y.Valid() && y.s == 1 && y.Mag() == y0
    requires t <= n < x.p.Length && t < y.p.Length && n - t < z.p.Length
    requires BPow(t) <= y0 && total < BPow(n + 1) && Conserved(z.Mag(), y0, x.Mag(), total)
    modifies x, x.p, y, y.p, z.p
    ensures x.p == old(x.p) || fresh(x.p)
    ensures y.p == old(y.p) || fresh(y.p)
    ensures x.p != y.p && x.Valid() && x.s == 1 && x.p.Length >= old(x.p.Length)
    ensures y.Valid() && y.s == 1 && y.Mag() == y0 && y.p.Length >= old(y.p.Length)
    ensures x.Mag() < y0 * BPow(n - t) && Conserved(z.Mag(), y0, x.Mag(), total)
    ensures forall k :: 0 <= k < n - t ==> z.p[k] == old(z.p[k])
  {
    hide Nat, BPow, Pow2, BitLen, Used, Conserved;
    ShiftIsBPow(n - t);
    ShiftL(y, biL * (n - t));
    LeadingDigit(x, y, z, n, t, y0, total);
    AlignedRoom(y.p[..], y0, n, t);
    ShiftR(y, biL * (n - t));
    DivModUnique(y0 * BPow(n - t), y0, 0, BPow(n - t));
    if y0 == 0 { assert false; }
  }

  lemma AlignedRoom(y: seq<Limb>, y0: nat, n: nat, t: nat)
    requires t <= n && BPow(t) <= y0 && Nat(y) == y0 * BPow(n - t)
    ensures !ShiftsAllOut(|y|, biL * (n - t))
  {
    hide Nat, BPow, Pow2;
    NatBound(y);
    MulMono(BPow(t), y0, BPow(n - t));
    BPowAdd(t, n - t);
    if |y| <= n { BPowMono(|y|, n); }
    DivModUnique(biL * (n - t), n - t, 0, biL);
  }

  // ---------- the interface ----------

  /** The fields an output parameter owns; outputs may be left out. */
  ghost function Owned(x: Mpi?): (s: set<object>)
    reads x
  {
    if x == null then {} else var y: Mpi := x; {y, y.p}
  }

  /** Quotient and remainder of C: the quotient rounds towards zero and the remainder has
      the dividend's sign. */
  function TruncDiv(a: int, b: int): int
    requires b != 0
  {
    if (a < 0) == (b < 0) then Abs(a) / Abs(b) else -(Abs(a) / Abs(b))
  }

  function TruncRem(a: int, b: int): int
    requires b != 0
  {
    if a < 0 then -(Abs(a) % Abs(b)) else Abs(a) % Abs(b)
  }

  /** What identifies truncated division: A = Q * B + R with |R| < |B|, R zero or signed
      like A. */
  lemma TruncDivExact(a: int, b: int)
    requires b != 0
    ensures a == TruncDiv(a, b) * b + TruncRem(a, b)
    ensures Abs(TruncRem(a, b)) < Abs(b)
    ensures TruncRem(a, b) == 0 || (TruncRem(a, b) < 0 <==> a < 0)
  {
    DivModFacts(Abs(a), Abs(b));
    var q, n := Abs(a) / Abs(b), Abs(b);
    assert n * q == q * n && (-q) * (-n) == q * n && q * (-n) == -(q * n) && (-q) * n == -(q * n);
  }

  /** And nothing else does. */
  lemma TruncDivUnique(a: int, b: int, q: int, r: int)
    requires b != 0 && a == q * b + r && Abs(r) < Abs(b) && (r == 0 || (r < 0 <==> a < 0))
    ensures q == TruncDiv(a, b) && r == TruncRem(a, b)
  {
    TruncDivExact(a, b);
    var q', r' := TruncDiv(a, b), TruncRem(a, b);
    MulDist(q, q', b);
    assert (q - q') * b == r' - r;
    SmallMultiple(q - q', b);
  }

  /** The quotient the code stores when it overwrites the dividend: the dividend's sign is
      read only after it has been replaced. */
  function DivInPlace(a: int, b: int): int
    requires b != 0
  {
    if b < 0 then -(Abs(a) / Abs(b)) else Abs(a) / Abs(b)
  }

  /** Dividing in place is right exactly for a dividend that is not negative or is smaller
      than the divisor. */
  lemma DivInPlaceCorrect(a: int, b: int)
    requires b != 0
    ensures DivInPlace(a, b) == TruncDiv(a, b) <==> a >= 0 || Abs(a) < Abs(b)
  {
    var m, n := Abs(a), Abs(b);
    if m < n {
      ModSmall(m, n);
    } else {
      DivMono(n, m, n);
      DivModUnique(n, 1, 0, n);
    }
  }

  lemma DivInPlaceWrong()
    ensures DivInPlace(-7, 2) == 3 && TruncDiv(-7, 2) == -3
  {}

  lemma SmallDividend(a: int, b: int)
    requires Abs(a) < Abs(b)
    ensures TruncDiv(a, b) == 0 && TruncRem(a, b) == a && DivInPlace(a, b) == 0
  {
    ModSmall(Abs(a), Abs(b));
  }

  /** q and r are quotient and remainder of a and b; either may be left out. The quotient
      may overwrite the dividend when no remainder is wanted, and the remainder may
      overwrite the dividend. */
  method DivMpi(q: Mpi?, r: Mpi?, a: Mpi, b: Mpi) returns (ret: Status)
    requires a.Valid() && b.Valid()
    requires q != null ==> q.Valid() && Apart(q, a) && q != b && q.p != b.p
    requires r != null ==> r.Valid() && Apart(r, a) && r != b && r.p != b.p
    requires q != null && r != null ==> q != r && q.p != r.p && q != a
    modifies Owned(q), Owned(r)
    ensures ret == if old(b.Val()) == 0 then DivisionByZero else Success
    ensures q != null ==> q.p == old(q.p) || fresh(q.p)
    ensures r != null ==> r.p == old(r.p) || fresh(r.p)
    ensures q != null && r != null ==> q.p != r.p
    ensures ret.Success? && q != null ==>
      q.Valid() && q.Val() == old(if q == a then DivInPlace(a.Val(), b.Val()) else TruncDiv(a.Val(), b.Val()))
    ensures ret.Success? && r != null ==> r.Valid() && r.Val() == old(TruncRem(a.Val(), b.Val()))
  {
    hide Nat, BPow, Pow2, Used, TruncDiv, TruncRem, DivInPlace;
    WordFacts();
    var c := CmpInt(b, 0);
    if c == 0 { return DivisionByZero; }
    ghost var av, bv := a.Val(), b.Val();
    c := CmpAbs(a, b);
    if c < 0 {
      SmallDividend(av, bv);
      if q != null { Lset(q, 0); }
      if r != null { Copy(r, a); }
      return Success;
    }
    var z, x, k := DivCore(a, b);
    DivSigns(av, bv, a.s, b.s, a.Mag(), b.Mag());
    if q != null { StoreQuotient(q, z, a, b, av, bv); }
    if r != null { StoreRemainder(r, x, a, k, av, bv); }
    return Success;
  }

  lemma DivSigns(a: int, b: int, s: int, t: int, m: nat, n: nat)
    requires (s == 1 || s == -1) && (t == 1 || t == -1) && m >= n > 0
    requires a == Signed(s, m) && b == Signed(t, n)
    ensures m / n > 0 && 0 <= m % n < n
    ensures Signed(s * t, m / n) == TruncDiv(a, b)
    ensures Signed(t, m / n) == DivInPlace(a, b)
    ensures Signed(s, m % n) == TruncRem(a, b)
  {
    DivMono(n, m, n);
    DivModUnique(n, 1, 0, n);
  }

  method StoreQuotient(q: Mpi, z: Mpi, a: Mpi, b: Mpi, ghost av: int, ghost bv: int)
    requires q.Valid() && Apart(q, a) && q != b && q.p != b.p && q != z && q.p != z.p && z != a
    requires z.Valid() && z.s == 1 && z.Mag() > 0 && a.HasSign() && b.HasSign() && bv != 0
    requires Signed(a.s * b.s, z.Mag()) == TruncDiv(av, bv)
    requires Signed(b.s, z.Mag()) == DivInPlace(av, bv)
    modifies q, q.p
    ensures q.p == old(q.p) || fresh(q.p)
    ensures q.Valid() && q.Val() == if q == a then DivInPlace(av, bv) else TruncDiv(av, bv)
  {
    hide Nat, BPow, Pow2, Used, TruncDiv, DivInPlace;
    NonZeroHasLimbs(z.p[..]);
    Copy(q, z);
    q.s := a.s * b.s;
  }

  method StoreRemainder(r: Mpi, x: Mpi, a: Mpi, k: nat, ghost av: int, ghost bv: int)
    requires r.Valid() && Apart(r, a) && r != x && r.p != x.p && x != a && x.p != a.p
    requires x.Valid() && x.s == 1 && a.HasSign() && bv != 0
    requires exists m: nat :: x.Mag() == m * Pow2(k) && Signed(a.s, m) == TruncRem(av, bv)
    modifies r, r.p, x, x.p
    ensures r.p == old(r.p) || fresh(r.p)
    ensures r.Valid() && r.Val() == TruncRem(av, bv)
  {
    hide Nat, BPow, Pow2, Used, TruncRem;
    ghost var m: nat :| x.Mag() == m * Pow2(k) && Signed(a.s, m) == TruncRem(av, bv);
    DivModUnique(x.Mag(), m, 0, Pow2(k));
    ShiftR(x, k);
    x.s := a.s;
    Copy(r, x);
    WordFacts();
    var c := CmpInt(r, 0);
    if c == 0 { r.s := 1; }
  }
}
