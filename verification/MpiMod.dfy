/** Reduction modulo an MPI or a small integer. */
module MpiMod {
  import opened Arith
  import opened Words
  import opened Limbs
  import opened Mpis
  import opened MpiArith
  import opened MpiDiv

  /** r = a mod b, the remainder that is never negative. r may be a. */
  method ModMpi(r: Mpi, a: Mpi, b: Mpi) returns (ret: Status)
    requires a.Valid() && b.Valid() && r.Valid() && Apart(r, a) && r != b && r.p != b.p
    modifies r, r.p
    ensures r.p == old(r.p) || fresh(r.p)
    ensures ret == if b.Val() < 0 then NegativeValue else if b.Val() == 0 then DivisionByZero else Success
    ensures ret.Success? ==> r.Valid() && r.Val() == old(a.Val()) % b.Val()
  {
    hide Nat, BPow, Pow2, Used, TruncRem, Cong;
    WordFacts();
    ghost var av := a.Val();
    var c := CmpInt(b, 0);
    if c < 0 { return NegativeValue; }
    ret := DivMpi(null, r, a, b);
    if ret != Success { return ret; }
    TruncDivExact(av, b.Val());
    CongIntro(av, r.Val(), TruncDiv(av, b.Val()), b.Val());
    LiftResidue(r, b, av);
  }

  /** Add or subtract the modulus until the residue is in range. */
  method LiftResidue(r: Mpi, b: Mpi, ghost av: int)
    requires r.Valid() && b.Valid() && r != b && r.p != b.p && b.Val() > 0
    requires Cong(av, r.Val(), b.Val())
    modifies r, r.p
    ensures r.p == old(r.p) || fresh(r.p)
    ensures r.Valid() && r.Val() == av % b.Val()
  {
    hide Nat, BPow, Pow2, Cong;
    WordFacts();
    var c := CmpInt(r, 0);
    while c < 0
      invariant r.p == old(r.p) || fresh(r.p)
      invariant r.Valid() && r.p != b.p && c == Sign(r.Val())
      invariant Cong(av, r.Val(), b.Val())
      decreases -r.Val()
    {
      AddOneModulus(av, r.Val(), b.Val());
      AddMpi(r, r, b);
      c := CmpInt(r, 0);
    }
    c := CmpMpi(r, b);
    while c >= 0
      invariant r.p == old(r.p) || fresh(r.p)
      invariant r.Valid() && r.p != b.p && c == Sign(r.Val() - b.Val())
      invariant 0 <= r.Val() && Cong(av, r.Val(), b.Val())
      decreases r.Val()
    {
      AddOneModulus(av, r.Val(), b.Val());
      SubMpi(r, r, b);
      c := CmpMpi(r, b);
    }
    ResidueIs(av, r.Val(), b.Val());
  }

  lemma AddOneModulus(a: int, r: int, n: int)
    requires n > 0 && Cong(a, r, n)
    ensures Cong(a, r + n, n) && Cong(a, r - n, n)
  {
    CongIntro(r + n, r, 1, n);
    CongIntro(r - n, r, -1, n);
  }

  lemma ResidueIs(a: int, r: int, n: int)
    requires n > 0 && Cong(a, r, n) && 0 <= r < n
    ensures r == a % n
  {
    ModSmall(r, n);
  }

  method DivInt(q: Mpi?, r: Mpi?, a: Mpi, b: int) returns (ret: Status)
    requires a.Valid() && -(B / 2) <= b < B / 2
    requires q != null ==> q.Valid() && Apart(q, a)
    requires r != null ==> r.Valid() && Apart(r, a)
    requires q != null && r != null ==> q != r && q.p != r.p && q != a
    modifies Owned(q), Owned(r)
    ensures ret == if b == 0 then DivisionByZero else Success
    ensures q != null ==> q.p == old(q.p) || fresh(q.p)
    ensures r != null ==> r.p == old(r.p) || fresh(r.p)
    ensures ret.Success? && q != null ==>
      q.Valid() && q.Val() == old(if q == a then DivInPlace(a.Val(), b) else TruncDiv(a.Val(), b))
    ensures ret.Success? && r != null ==> r.Valid() && r.Val() == old(TruncRem(a.Val(), b))
  {
    hide Nat, BPow, Pow2, Used, TruncDiv, TruncRem, DivInPlace;
    var d := OneLimb(b);
    ret := DivMpi(q, r, a, d);
  }

  /** Shifting in half a limb: the next remainder of a number read from the top. */
  lemma NextHalf(m: nat, y: Limb, h: Limb, b: nat)
    requires 0 < b <= H && y == m % b && h < H
    ensures BitOr(ShlW(y, biH), h) < B && BitOr(ShlW(y, biH), h) % b == (m * H + h) % b
  {
    hide Pow2, BitOr;
    WordFacts();
    DivModFacts(m, b);
    MulMono(y + 1, H, H);
    MulDist(y as int, 1, H);
    ModSmall(y * H, B);
    DivModUnique(y * H, y, 0, H);
    OrIsAdd(ShlW(y, biH), h, biH);
    CongMod(m, b);
    CongScale(m % b, m, H, b);
    CongAdd(y * H, m * H, h, h, b);
  }

  lemma ModByMultiplication(y: Limb, b: Limb)
    requires b > 0
    ensures 0 <= y / b < B && SubW(y, MulW(y / b, b)) == y % b && y % b < b
  {
    hide Pow2;
    DivModFacts(y, b);
    QuotientTest(y, b, 0);
    ShrinkQuotient(y, b);
    var z := y / b;
    var zb := z * b;
    assert y - zb == y % b;
    ModSmall(zb, B);
    ModSmall(y - zb, B);
  }

  /** One half-limb step of the loop, for any divisor: what does not fit the word is lost. */
  function HalfStep(y: Limb, h: Limb, b: Limb): (r: Limb)
    requires b > 0 && h < H
    ensures r < b
  {
    StepFits(y, h);
    var v: Limb := BitOr(ShlW(y, biH), h);
    ModByMultiplication(v, b);
    SubW(v, MulW(v / b, b))
  }

  lemma StepFits(y: Limb, h: Limb)
    ensures BitOr(ShlW(y, biH), h) < B
  {
    hide Pow2, BitOr, ShlW;
    WordFacts();
    OrBounds(ShlW(y, biH), h, biL);
  }

  /** The loop from the top limb down. */
  function Remainder(s: seq<Limb>, b: Limb): (r: Limb)
    requires b > 0
    ensures r < b
  {
    if s == [] then 0
    else
      HalvesOf(s[0]);
      HalfStep(HalfStep(Remainder(s[1..], b), HighHalfOf(s[0]), b), LowHalfOf(s[0]), b)
  }

  lemma StepCorrect(y: Limb, h: Limb, b: Limb, m: nat)
    requires b > 0 && h < H && y == m % b && (b <= H || B % b == 0 || (y == m && y < H))
    ensures HalfStep(y, h, b) == (m * H + h) % b
  {
    hide *;
    StepIsMod(y, h, b);
    if b <= H {
      NextHalf(m, y, h, b);
    } else {
      WrappedHalf(y, h);
      WordFacts();
      if B % b == 0 { LostMultiple(m, y * H, h, B, b); CarriedOver(y, m, h, b); } else { SmallHalf(y); }
    }
  }

  /** Taking a multiple of b off does not matter modulo b. */
  lemma LostMultiple(m: int, v: int, h: int, w: int, b: int)
    requires b > 0 && w > 0 && w % b == 0
    ensures (v % w + h) % b == (v + h) % b
  {
    DivModFacts(v, w);
    DivModFacts(w, b);
    MulAssoc(v / w, w / b, b);
    assert v + h == (v % w + h) + (v / w) * (w / b) * b;
    DivModShift((v / w) * (w / b), v % w + h, b);
  }

  lemma CarriedOver(y: int, m: int, h: int, b: int)
    requires b > 0 && y == m % b
    ensures (y * H + h) % b == (m * H + h) % b
  {
    hide Cong;
    CongMod(m, b);
    CongScale(y, m, H, b);
    CongRefl(h, b);
    CongAdd(y * H, m * H, h, h, b);
    CongIs(y * H + h, m * H + h, b);
  }

  lemma StepIsMod(y: Limb, h: Limb, b: Limb)
    requires b > 0 && h < H
    ensures BitOr(ShlW(y, biH), h) < B && HalfStep(y, h, b) == BitOr(ShlW(y, biH), h) % b
  {
    hide Pow2, BitOr, ShlW, SubW, MulW;
    StepFits(y, h);
    ModByMultiplication(BitOr(ShlW(y, biH), h), b);
  }

  lemma SmallHalf(y: Limb)
    requires y < H
    ensures y * H % B == y * H
  {
    hide Pow2;
    WordFacts();
    MulMono(y + 1, H, H);
    MulDist(y as int, 1, H);
    MulMono(0, y, H);
    ModSmall(y * H, B);
  }

  /** The word after the shift and the or: bits beyond the top are gone. */
  lemma WrappedHalf(y: Limb, h: Limb)
    requires h < H
    ensures BitOr(ShlW(y, biH), h) == y * H % B + h
  {
    hide Pow2, BitOr;
    WordFacts();
    ShlSplit(y, biH);
    OrIsAdd(ShlW(y, biH), h, biH);
  }

  /** The loop computes the remainder for divisors up to half a word, for powers of two, and for
      any divisor of a number of one limb. */
  lemma {:induction false} RemainderCorrect(s: seq<Limb>, b: Limb)
    requires b > 0 && (b <= H || B % b == 0 || |s| <= 1)
    ensures Remainder(s, b) == Nat(s) % b
    decreases |s|
  {
    hide Nat, Pow2, HalfStep, HighHalfOf, LowHalfOf;
    NatEmpty();
    ModSmall(0, b);
    if s != [] {
      var rest := s[1..];
      RemainderCorrect(rest, b);
      assert s == [s[0]] + rest;
      NatCons(s[0], rest);
      var m, x := Nat(rest), s[0];
      HalvesOf(x);
      HalvesJoined(m, x);
      var hi := HighHalfOf(x);
      MulMono(0, m, H);
      StepCorrect(Remainder(rest, b), hi, b, m);
      if b > H && B % b != 0 {
        assert m == 0;
        ModSmall(hi, b);
      }
      StepCorrect((m * H + hi) % b, LowHalfOf(x), b, m * H + hi);
    }
  }

  lemma HalvesJoined(m: nat, x: Limb)
    ensures (m * H + HighHalfOf(x)) * H + LowHalfOf(x) == x + B * m
  {
    hide Pow2, HighHalfOf, LowHalfOf;
    assert B == H * H by { WordFacts(); }
    HalvesOf(x);
    MulDist(m * H, HighHalfOf(x), H);
    MulAssoc(m, H, H);
  }

  /** For every other divisor it is wrong already for B, the number with the limbs 0 and 1. */
  lemma RemainderWrong(b: Limb)
    requires H < b && B % b != 0
    ensures Remainder([0, 1], b) == 0 && Nat([0, 1]) == B
  {
    hide Nat, Pow2, HalfStep, HighHalfOf, LowHalfOf;
    WordFacts();
    assert [0, 1][1..] == [1];
    RemainderCorrect([1], b);
    NatSingle(1);
    ModSmall(1, b);
    HalvesOfZero();
    HalfOverflow(b);
    NatPair(0, 1);
  }

  /** Exactly which divisors the loop is right for. */
  lemma RemainderIff(b: Limb)
    requires b > 0
    ensures (forall s: seq<Limb> :: Remainder(s, b) == Nat(s) % b) <==> (b <= H || B % b == 0)
  {
    hide *;
    if b <= H || B % b == 0 {
      forall s: seq<Limb> ensures Remainder(s, b) == Nat(s) % b { RemainderCorrect(s, b); }
    } else {
      RemainderWrong(b);
    }
  }

  lemma HalvesOfZero()
    ensures HighHalfOf(0) == 0 && LowHalfOf(0) == 0
  {
    hide Pow2, HighHalfOf, LowHalfOf;
    HalvesOf(0);
    MulMono(0, HighHalfOf(0), H);
    if HighHalfOf(0) > 0 { MulPos(HighHalfOf(0), H); }
  }

  lemma HalfOverflow(b: Limb)
    requires H < b
    ensures HalfStep(1, 0, b) == H && HalfStep(H, 0, b) == 0
  {
    hide Pow2, BitOr, HalfStep, ShlW;
    WordFacts();
    StepIsMod(1, 0, b);
    StepIsMod(H, 0, b);
    WrappedHalf(1, 0);
    WrappedHalf(H, 0);
    DivModUnique(H * H, 1, 0, B);
    ModSmall(H, B);
    ModSmall(H, b);
    ModSmall(0, b);
  }

  lemma ShrinkQuotient(y: nat, b: nat)
    requires b > 0
    ensures y / b <= y
  {
    DivModFacts(y, b);
    if y / b > y { MulMono(1, b, y / b); }
  }

  /** r = a mod b for a small positive b, half a limb at a time; for any other b what the loop
      yields. */
  method ModInt(a: Mpi, b: int) returns (ret: Status, r: Limb)
    requires a.Valid() && b < B / 2
    ensures ret == if b == 0 then DivisionByZero else if b < 0 then NegativeValue else Success
    ensures ret.Success? && (b <= H || B % b == 0 || a.p.Length <= 1) ==> r == a.Val() % b
    ensures ret.Success? && b > H ==>
      r == var y := Remainder(a.p[..], b); if a.s < 0 && y != 0 then b - y else y
  {
    hide Nat, BPow, Pow2, Remainder;
    WordFacts();
    RemainderEmpty(b);
    r := 0;
    if b == 0 { return DivisionByZero, 0; }
    if b < 0 { return NegativeValue, 0; }
    NatEmpty();
    assert a.p.Length == 0 ==> a.p[..] == [];
    if b == 1 || a.p.Length == 0 {
      ModSmall(0, b);
      assert b == 1 ==> a.Val() % 1 == 0;
      return Success, 0;
    }
    if b == 2 {
      NatParity(a.p[..]);
      NegativeResidue(a.Mag(), 2);
      return Success, a.p[0] % 2;
    }
    var y := ModLoop(a, b);
    if b <= H || B % b == 0 || a.p.Length <= 1 { RemainderCorrect(a.p[..], b); }
    NegativeResidue(a.Mag(), b);
    if a.s < 0 && y != 0 { y := b - y; }
    return Success, y;
  }

  lemma NegativeResidue(m: nat, b: nat)
    requires b > 0
    ensures Signed(-1, m) % b == if m % b == 0 then 0 else b - m % b
  {
    var v: int := m;
    DivModFacts(v, b);
    if m % b == 0 {
      DivModUnique(-v, -(v / b), 0, b);
    } else {
      MulDist(-(v / b), 1, b);
      DivModUnique(-v, -(v / b) - 1, b - v % b, b);
    }
  }

  lemma RemainderEmpty(b: int)
    ensures 0 < b < B ==> Remainder([], b) == 0
  {}

  method ModLoop(a: Mpi, b: Limb) returns (y: Limb)
    requires 0 < b
    ensures y == Remainder(a.p[..], b)
  {
    hide HalfStep, HighHalfOf, LowHalfOf;
    var i := a.p.Length;
    y := 0;
    assert a.p[i..] == [];
    while i > 0
      invariant 0 <= i <= a.p.Length && y == Remainder(a.p[i..], b)
    {
      var x: Limb := a.p[i - 1];
      assert a.p[i - 1..] == [x] + a.p[i..] && a.p[i - 1..][1..] == a.p[i..];
      HalvesOf(x);
      y := ModHalf(y, HighHalfOf(x), b);
      y := ModHalf(y, LowHalfOf(x), b);
      i := i - 1;
    }
    assert a.p[0..] == a.p[..];
  }

  method ModHalf(y0: Limb, h: Limb, b: Limb) returns (y: Limb)
    requires 0 < b && h < H
    ensures y == HalfStep(y0, h, b)
  {
    StepFits(y0, h);
    y := BitOr(ShlW(y0, biH), h);
    ModByMultiplication(y, b);
    var z: Limb := y / b;
    y := SubW(y, MulW(z, b));
  }
}
