/** Shifts of MPIs, limbs first and then bits. */
module MpiShift {
  import opened Arith
  import opened Words
  import opened Limbs
  import opened Mpis
  import opened MpiBits

  // ---------- left ----------

  lemma MovedUp(w: seq<Limb>, r: seq<Limb>, v0: nat)
    requires |r| == |w| && v0 <= |w| && Nat(w) * BPow(v0) < BPow(|w|)
    requires forall k :: 0 <= k < |r| ==> r[k] == if k < v0 then 0 else w[k - v0]
    ensures Nat(r) == Nat(w) * BPow(v0)
  {
    hide Nat, BPow;
    var n := |w|;
    BPowAdd(n - v0, v0);
    MulCancelLt(Nat(w), BPow(n - v0), BPow(v0));
    NatFitsTail(w, n - v0);
    assert r[v0..] == w[..n - v0];
    ZerosBelow(r, v0);
  }

  lemma ZerosBelow(r: seq<Limb>, v0: nat)
    requires v0 <= |r| && forall k :: 0 <= k < v0 ==> r[k] == 0
    ensures Nat(r) == Nat(r[v0..]) * BPow(v0)
  {
    hide Nat, BPow;
    NatSplit(r, v0);
    NatZeros(r[..v0]);
  }

  method MoveUp(p: array<Limb>, v0: nat)
    requires v0 <= p.Length && Nat(p[..]) * BPow(v0) < BPow(p.Length)
    modifies p
    ensures Nat(p[..]) == old(Nat(p[..])) * BPow(v0)
    ensures forall k :: 0 <= k < v0 ==> p[k] == 0
  {
    hide Nat, BPow;
    ghost var w := p[..];
    var i := p.Length;
    while i > v0
      invariant v0 <= i <= p.Length
      invariant forall k :: i <= k < p.Length ==> p[k] == w[k - v0]
      invariant forall k :: 0 <= k < i ==> p[k] == w[k]
    {
      p[i - 1] := p[i - v0 - 1];
      i := i - 1;
    }
    while i > 0
      invariant 0 <= i <= v0
      invariant forall k :: 0 <= k < p.Length && k >= i ==> p[k] == if k < v0 then 0 else w[k - v0]
    {
      p[i - 1] := 0;
      i := i - 1;
    }
    MovedUp(w, p[..], v0);
  }

  /** One limb of the bit shift: what stays, what moves on, and their worth. */
  lemma ShiftUpLimb(x: Limb, r0: Limb, t: nat)
    requires 0 < t < biL && r0 < Pow2(t)
    ensures var v := BitOr(ShlW(x, t), r0);
            v < B && ShrW(x, biL - t) < Pow2(t) && x * Pow2(t) + r0 == v + ShrW(x, biL - t) * B
  {
    hide Pow2, BitOr;
    ShlSplit(x, t);
    OrIsAdd(ShlW(x, t), r0, t);
    Pow2Mono(t, biL);
    OrBounds(ShlW(x, t), r0, biL);
  }

  /** What stands in the first limbs, with the carry above them, is m times what stood there. */
  ghost predicate Upward(w: seq<Limb>, i: nat, done: seq<Limb>, r0: nat, m: nat)
    requires i <= |w|
  {
    |done| == i && Nat(done) + r0 * BPow(i) == m * Nat(w[..i])
  }

  lemma ShiftUpStep(w: seq<Limb>, done: seq<Limb>, i: nat, m: nat, r0: nat, v: Limb, r1: nat)
    requires i < |w| && Upward(w, i, done, r0, m)
    requires w[i] * m + r0 == v + r1 * B
    ensures Upward(w, i + 1, done + [v], r1, m)
  {
    hide Nat, BPow, Pow2;
    NatConcat(done, [v]);
    NatSingle(v);
    NatTake(w, i);
    BPowStep(i);
    MulDistMid(m, Nat(w[..i]), w[i], BPow(i));
    MulDist(w[i] * m, r0, BPow(i));
    MulDist(v, r1 * B, BPow(i));
    MulAssoc(r1, B, BPow(i));
    MulAssoc(w[i], m, BPow(i));
  }

  lemma LimbUp(w: seq<Limb>, done: seq<Limb>, i: nat, t: nat, r0: Limb, v: Limb, r1: Limb)
    requires i < |w| && 0 < t < biL && r0 < Pow2(t) && Upward(w, i, done, r0, Pow2(t))
    requires v == BitOr(ShlW(w[i], t), r0) && r1 == ShrW(w[i], biL - t)
    ensures r1 < Pow2(t) && Upward(w, i + 1, done + [v], r1, Pow2(t))
  {
    hide *;
    ShiftUpLimb(w[i], r0, t);
    ShiftUpStep(w, done, i, Pow2(t), r0, v, r1);
  }

  lemma UpwardStart(w: seq<Limb>, i: nat, m: nat)
    requires i <= |w| && forall k :: 0 <= k < i ==> w[k] == 0
    ensures Upward(w, i, w[..i], 0, m)
  {
    hide Nat, BPow;
    NatZeros(w[..i]);
  }

  method BitsUp(p: array<Limb>, v0: nat, t1: nat)
    requires v0 <= p.Length && 0 < t1 < biL
    requires forall k :: 0 <= k < v0 ==> p[k] == 0
    requires Nat(p[..]) * Pow2(t1) < BPow(p.Length)
    modifies p
    ensures Nat(p[..]) == old(Nat(p[..])) * Pow2(t1)
  {
    hide *;
    ghost var w := p[..];
    var r0: Limb := 0;
    var i := v0;
    UpwardStart(w, i, Pow2(t1));
    assert p[..i] == w[..i];
    while i < p.Length
      invariant v0 <= i <= p.Length && r0 < Pow2(t1)
      invariant Upward(w, i, p[..i], r0, Pow2(t1))
      invariant forall k :: i <= k < p.Length ==> p[k] == w[k]
    {
      ghost var done, c := p[..i], r0;
      OrFits(p[i], r0, t1);
      var r1: Limb := ShrW(p[i], biL - t1);
      p[i] := ShlW(p[i], t1);
      p[i] := BitOr(p[i], r0);
      r0 := r1;
      LimbUp(w, done, i, t1, c, p[i], r0);
      assert p[..i + 1] == done + [p[i]];
      i := i + 1;
    }
    assert p[..p.Length] == p[..];
    NoCarryOut(w, p[..], r0, Pow2(t1));
  }

  lemma OrFits(x: Limb, r0: Limb, t: nat)
    requires 0 < t < biL && r0 < Pow2(t)
    ensures BitOr(ShlW(x, t), r0) < B
  {
    hide *;
    ShiftUpLimb(x, r0, t);
  }

  /** A value below the buffer's bound leaves no carry. */
  lemma NoCarryOut(w: seq<Limb>, p: seq<Limb>, r: nat, m: nat)
    requires Upward(w, |w|, p, r, m) && m * Nat(w) < BPow(|w|)
    ensures Nat(p) == m * Nat(w)
  {
    hide *;
    var v := m * Nat(w);
    UpwardEnd(w, p, r, m, v);
    NoHighPart(Nat(p), r, BPow(|w|));
  }

  lemma UpwardEnd(w: seq<Limb>, p: seq<Limb>, r: nat, m: nat, v: int)
    requires Upward(w, |w|, p, r, m) && v == m * Nat(w)
    ensures Nat(p) + r * BPow(|w|) == v
  {
    hide Nat, BPow;
    assert w[..|w|] == w;
  }

  /** The two passes of the left shift, over a buffer with room for the result. */
  method ShiftUp(p: array<Limb>, count: nat)
    requires Nat(p[..]) * Pow2(count) < BPow(p.Length) && p.Length * biL >= count
    modifies p
    ensures Nat(p[..]) == old(Nat(p[..])) * Pow2(count)
  {
    hide Nat, BPow, Pow2;
    var v0, t1 := count / biL, count % biL;
    ShiftSplit(Nat(p[..]), count, v0, t1, p.Length);
    if v0 > 0 {
      MoveUp(p, v0);
    } else {
      NatEmpty();
    }
    if t1 > 0 {
      BitsUp(p, v0, t1);
    }
    Pow2Values();
  }

  /** x <<= count; nothing is lost, since x grows to hold every bit. */
  method ShiftL(x: Mpi, count: nat)
    modifies x, x.p
    ensures x.p == old(x.p) || fresh(x.p)
    ensures x.s == old(x.s) && x.Mag() == old(x.Mag()) * Pow2(count)
    ensures old(x.Valid()) ==> x.Valid()
    ensures x.p.Length == var i := BitLen(old(x.Mag())) + count;
                          if old(x.p.Length) * biL < i then BitsToLimbs(i) else old(x.p.Length)
  {
    hide Nat, BPow, Pow2, BitLen;
    var bits := Bitlen(x);
    var i := bits + count;
    if x.p.Length * biL < i { Grow(x, BitsToLimbs(i)); }
    ShiftFits(x.Mag(), count, x.p.Length);
    ShiftUp(x.p, count);
  }

  lemma ShiftFits(m: nat, count: nat, n: nat)
    requires n * biL >= BitLen(m) + count
    ensures m * Pow2(count) < BPow(n)
  {
    hide Pow2, BPow, BitLen;
    BitLenBounds(m);
    BPowIsPow2(n);
    Pow2Add(BitLen(m), count);
    MulStrict(m, Pow2(BitLen(m)), Pow2(count));
    Pow2Mono(BitLen(m) + count, biL * n);
  }

  lemma ShiftSplit(m: nat, count: nat, v0: nat, t1: nat, n: nat)
    requires v0 == count / biL && t1 == count % biL
    requires m * Pow2(count) < BPow(n) && n * biL >= count
    ensures m * BPow(v0) * Pow2(t1) == m * Pow2(count)
    ensures m * BPow(v0) < BPow(n) && v0 <= n
  {
    hide Pow2, BPow;
    DivModFacts(count, biL);
    BPowIsPow2(v0);
    Pow2Add(biL * v0, t1);
    MulAssoc(m, BPow(v0), Pow2(t1));
    MulMono(0, m, BPow(v0));
    MulMono(1, Pow2(t1), m * BPow(v0));
    if v0 > n { MulMono(n + 1, v0, biL); }
  }

  // ---------- right ----------

  lemma MovedDown(w: seq<Limb>, r: seq<Limb>, v0: nat)
    requires |r| == |w| && v0 <= |w|
    requires forall k :: 0 <= k < |r| ==> r[k] == if k + v0 < |w| then w[k + v0] else 0
    ensures Nat(r) == Nat(w) / BPow(v0)
  {
    hide Nat, BPow;
    NatZeroTail(r, |w| - v0);
    assert r[..|w| - v0] == w[v0..];
    NatSplit(w, v0);
    NatBound(w[..v0]);
    DivModUnique(Nat(w), Nat(w[v0..]), Nat(w[..v0]), BPow(v0));
  }

  method MoveDown(p: array<Limb>, v0: nat)
    requires v0 <= p.Length
    modifies p
    ensures Nat(p[..]) == old(Nat(p[..])) / BPow(v0)
  {
    hide Nat, BPow;
    ghost var w := p[..];
    var i: nat := 0;
    while i < p.Length - v0
      invariant i <= p.Length - v0
      invariant forall k :: 0 <= k < i ==> p[k] == w[k + v0]
      invariant forall k :: i <= k < p.Length ==> p[k] == w[k]
    {
      p[i] := p[i + v0];
      i := i + 1;
    }
    while i < p.Length
      invariant p.Length - v0 <= i <= p.Length
      invariant forall k :: 0 <= k < i ==> p[k] == if k + v0 < |w| then w[k + v0] else 0
    {
      p[i] := 0;
      i := i + 1;
    }
    MovedDown(w, p[..], v0);
  }

  /** One limb on the way down: rem is the part of the limb above that was shifted out. */
  lemma ShiftDownLimb(x: Limb, rem: nat, r0: Limb, t: nat)
    requires 0 < t < biL && rem < Pow2(t) && r0 == rem * Pow2(biL - t)
    ensures var v := BitOr(ShrW(x, t), r0);
            v < B && Pow2(t) * v + x % Pow2(t) == rem * B + x
  {
    hide *;
    OrBelow(x, rem, r0, t);
    assert ShrW(x, t) == x / Pow2(t) by { ShrIs(x, t); }
    assert Pow2(biL - t) * Pow2(t) == B by { Pow2Add(t, biL - t); BIsPow2(); }
    ShiftedOut(x, rem, r0, BitOr(ShrW(x, t), r0), Pow2(biL - t), Pow2(t), B);
  }

  lemma BIsPow2()
    ensures B == Pow2(biL)
  {}

  lemma ShrIs(x: Limb, t: nat)
    ensures ShrW(x, t) == x / Pow2(t)
  {}

  /** Shifting up by all but t bits keeps the t low bits. */
  lemma ShlRest(x: Limb, t: nat)
    requires 0 < t < biL
    ensures ShlW(x, biL - t) == x % Pow2(t) * Pow2(biL - t)
  {
    hide Pow2;
    var p, q := Pow2(biL - t), Pow2(t);
    Pow2Add(t, biL - t);
    SplitProduct(x, p, q);
    DivModUnique(x * p, x / q, x % q * p, B);
  }

  /** A shifted word fits under the bits shifted out of the word above. */
  lemma OrBelow(x: Limb, rem: nat, r0: Limb, t: nat)
    requires 0 < t < biL && rem < Pow2(t) && r0 == rem * Pow2(biL - t)
    ensures BitOr(ShrW(x, t), r0) == ShrW(x, t) + r0 && BitOr(ShrW(x, t), r0) < B
  {
    hide Pow2, BitOr;
    var p, q := Pow2(biL - t), Pow2(t);
    Pow2Add(t, biL - t);
    DivLess(x, q, p);
    DivModUnique(r0, rem, 0, p);
    OrCommutes(ShrW(x, t), r0);
    OrIsAdd(r0, ShrW(x, t), biL - t);
    Pow2Mono(biL - t, biL);
    OrBounds(ShrW(x, t), r0, biL);
  }

  lemma ShiftedOut(x: nat, rem: nat, r0: nat, v: nat, p: nat, q: nat, b: nat)
    requires q > 0 && p * q == b && r0 == rem * p && v == x / q + r0
    ensures q * v + x % q == rem * b + x
  {
    DivModFacts(x, q);
    MulDist(x / q, r0, q);
    MulAssoc(rem, p, q);
  }

  lemma ShiftDownStep(x: Limb, w: seq<Limb>, done: seq<Limb>, rem: nat, v: Limb, rem': nat, m: nat)
    requires m * Nat(done) + rem == Nat(w) && m * v + rem' == rem * B + x
    ensures m * Nat([v] + done) + rem' == Nat([x] + w)
  {
    hide *;
    NatCons(v, done);
    NatCons(x, w);
    ShiftDownSum(x, Nat(w), Nat(done), rem, v, rem', m);
  }

  lemma ShiftDownSum(x: int, w: int, done: int, rem: int, v: int, rem': int, m: int)
    requires m * done + rem == w && m * v + rem' == rem * B + x
    ensures m * (v + B * done) + rem' == x + B * w
  {
    MulDist(v, B * done, m);
    MulAssoc(B, done, m);
    MulDist(m * done, rem, B);
  }

  method BitsDown(p: array<Limb>, v1: nat)
    requires 0 < v1 < biL
    modifies p
    ensures Nat(p[..]) == old(Nat(p[..])) / Pow2(v1)
  {
    hide *;
    ghost var w := p[..];
    var r0: Limb := 0;
    ghost var rem: nat := 0;
    var i := p.Length;
    NatEmpty();
    assert p[i..] == [] && w[i..] == [];
    while i > 0
      invariant 0 <= i <= p.Length && rem < Pow2(v1) && r0 == rem * Pow2(biL - v1)
      invariant Pow2(v1) * Nat(p[i..]) + rem == Nat(w[i..])
      invariant forall k :: 0 <= k < i ==> p[k] == w[k]
    {
      ghost var done, c := p[i..], rem;
      ghost var x := p[i - 1];
      ShiftDownLimb(p[i - 1], rem, r0, v1);
      ShlRest(p[i - 1], v1);
      var r1: Limb := ShlW(p[i - 1], biL - v1);
      p[i - 1] := ShrW(p[i - 1], v1);
      p[i - 1] := BitOr(p[i - 1], r0);
      r0 := r1;
      DivModFacts(x, Pow2(v1));
      rem := x % Pow2(v1);
      ShiftDownStep(x, w[i..], done, c, p[i - 1], rem, Pow2(v1));
      assert p[i - 1..] == [p[i - 1]] + done;
      assert w[i - 1..] == [x] + w[i..];
      i := i - 1;
    }
    assert p[0..] == p[..] && w[0..] == w;
    DivModUnique(Nat(w), Nat(p[..]), rem, Pow2(v1));
  }

  /** Whether a right shift leaves through the early exit that resets the MPI to +0. */
  predicate ShiftsAllOut(n: nat, count: nat)
  {
    count / biL > n || (count / biL == n && count % biL > 0)
  }

  /** x >>= count. The sign is kept, except on the early exit, so a negative number whose
      bits are all shifted out otherwise becomes a negative zero: an MPI that is not valid. */
  method ShiftR(x: Mpi, count: nat)
    modifies x, x.p
    ensures x.p == old(x.p) || fresh(x.p)
    ensures x.Mag() == old(x.Mag()) / Pow2(count)
    ensures x.s == if ShiftsAllOut(old(x.p.Length), count) then 1 else old(x.s)
    ensures old(x.Valid()) ==>
      (x.Valid() <==> old(x.s == 1 || ShiftsAllOut(x.p.Length, count) || x.Mag() >= Pow2(count)))
    ensures !ShiftsAllOut(old(x.p.Length), count) ==> x.p.Length == old(x.p.Length)
  {
    hide Nat, BPow, Pow2;
    var v0, v1 := count / biL, count % biL;
    DivModFacts(count, biL);
    ghost var m := x.Mag();
    BPowIsPow2(v0);
    Pow2Add(biL * v0, v1);
    NatBound(x.p[..]);
    if v0 > x.p.Length || (v0 == x.p.Length && v1 > 0) {
      BPowMono(x.p.Length, v0);
      MulMono(1, Pow2(v1), BPow(v0));
      ModSmall(m, Pow2(count));
      WordFacts();
      Lset(x, 0);
      return;
    }
    if v0 > 0 {
      MoveDown(x.p, v0);
    } else {
      NatEmpty();
    }
    if v1 > 0 {
      BitsDown(x.p, v1);
    }
    DivDiv(m, BPow(v0), Pow2(v1));
    Pow2Values();
    ShiftedZero(m, Pow2(count));
  }

  lemma ShiftedZero(m: nat, n: nat)
    requires n > 0
    ensures m / n >= 0 && (m / n == 0 <==> m < n)
  {
    DivModFacts(m, n);
    if m < n { ModSmall(m, n); } else { DivMono(n, m, n); DivModUnique(n, 1, 0, n); }
  }

  /** -1 shifted right by one bit: magnitude 0 with a negative sign. */
  method ShiftRNegativeZero() returns (x: Mpi)
    ensures fresh(x) && x.s == -1 && x.Mag() == 0 && !x.Valid()
  {
    hide Nat, BPow, Pow2;
    assert B > 4 by { WordFacts(); }
    Pow2Values();
    x := new Mpi();
    Lset(x, -1);
    ShiftR(x, 1);
  }
}
