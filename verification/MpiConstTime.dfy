/** The comparison and the swap of MPIs that take neither a branch nor an early exit on the
    values (constant_time.c). */
module MpiConstTime {
  import opened Arith
  import opened Words
  import opened ConstantTime
  import opened Limbs
  import opened Mpis

  // ---------- the comparison of two limbs ----------

  /** mbedtls_ct_mpi_uint_lt: the sign bit of x - y when the top bits agree, else that of y. */
  function UintLt(x: Limb, y: Limb): (r: nat)
    ensures r == Bit(x < y)
  {
    UintLtFacts(x, y);
    var cond: Limb := BitXor(x, y);
    var ret := BitAnd(SubW(x, y), NotW(cond));
    BitOr(ret, BitAnd(y, cond)) / Pow2(biL - 1)
  }

  lemma UintLtFacts(x: Limb, y: Limb)
    ensures BitXor(x, y) < B
    ensures BitOr(BitAnd(SubW(x, y), NotW(BitXor(x, y))), BitAnd(y, BitXor(x, y))) / Pow2(biL - 1) == Bit(x < y)
  {
    hide Pow2, BitXor, BitAnd, BitOr, SubW;
    assert B == Pow2(biL) == 2 * Pow2(biL - 1) by { WordFacts(); }
    var t := biL - 1;
    TopOfXor(x, y, t);
    var cond: Limb := BitXor(x, y);
    SubBorrow(x, y);
    TopOfAnd(SubW(x, y), NotW(cond), t);
    TopOfAnd(y, cond, t);
    var a, b := BitAnd(SubW(x, y), NotW(cond)), BitAnd(y, cond);
    TopOfOr(a, b, t);
    TopBitValue(BitOr(a, b), Pow2(t));
  }

  // ---------- the comparison of two MPIs ----------

  /** One pass over the limbs from the top: the first pair that differs decides. */
  ghost predicate Decided(a: seq<Limb>, b: seq<Limb>, i: nat, done: bool, lt: bool, neg: bool)
    requires |a| == |b|
  {
    if done then Nat(a) != Nat(b) && (lt <==> if neg then Nat(b) < Nat(a) else Nat(a) < Nat(b))
    else !lt && forall k :: i <= k < |a| ==> a[k] == b[k]
  }

  lemma DecidedEnd(a: seq<Limb>, b: seq<Limb>, done: bool, lt: bool, neg: bool)
    requires |a| == |b| && Decided(a, b, 0, done, lt, neg)
    ensures lt <==> if neg then Nat(b) < Nat(a) else Nat(a) < Nat(b)
  {
    hide Nat;
    if !done { assert a == b; }
  }

  lemma DecidedStep(a: seq<Limb>, b: seq<Limb>, i: nat, done: bool, lt: bool, neg: bool)
    requires |a| == |b| && 0 < i <= |a| && Decided(a, b, i, done, lt, neg)
    ensures var above, below := b[i - 1] < a[i - 1], a[i - 1] < b[i - 1];
            Decided(a, b, i - 1, done || above || below, lt || (!done && (if neg then above else below)), neg)
  {
    hide Nat;
    if !done && b[i - 1] < a[i - 1] { LimbsDecide(b, a, i); }
    if !done && a[i - 1] < b[i - 1] { LimbsDecide(a, b, i); }
  }

  /** x < y, signs included, walking over all limbs; only for buffers of one size. */
  method LtMpiCt(x: Mpi, y: Mpi) returns (ret: Status, lt: bool)
    requires x.HasSign() && y.HasSign()
    ensures ret == if x.p.Length != y.p.Length then BadInputData else Success
    ensures ret.Success? && x.Valid() && y.Valid() ==> (lt <==> x.Val() < y.Val())
    ensures ret.Success? && x.s != y.s ==> (lt <==> x.s == -1)
  {
    hide Nat, UintLt;
    lt := false;
    if x.p.Length != y.p.Length { return BadInputData, false; }
    var xNeg, yNeg := x.s == -1, y.s == -1;
    var cond := xNeg != yNeg;
    lt := cond && xNeg;
    var done := cond;
    var i := x.p.Length;
    while i > 0
      invariant 0 <= i <= x.p.Length && (xNeg != yNeg ==> done && lt == xNeg)
      invariant xNeg == yNeg ==> Decided(x.p[..], y.p[..], i, done, lt, xNeg)
    {
      if xNeg == yNeg { DecidedStep(x.p[..], y.p[..], i, done, lt, xNeg); }
      cond := UintLt(y.p[i - 1], x.p[i - 1]) == 1;
      lt := lt || (cond && !done && xNeg);
      done := done || cond;
      cond := UintLt(x.p[i - 1], y.p[i - 1]) == 1;
      lt := lt || (cond && !done && !xNeg);
      done := done || cond;
      i := i - 1;
    }
    if xNeg == yNeg { DecidedEnd(x.p[..], y.p[..], done, lt, xNeg); }
    return Success, lt;
  }

  // ---------- the swap ----------

  /** A limb picked by a mask of all ones or all zeros. */
  lemma PickLimb(a: Limb, b: Limb, pick: nat)
    requires pick <= 1
    ensures BitOr(BitAnd(a, NotW(MpiUintMask(pick))), BitAnd(b, MpiUintMask(pick))) == if pick == 1 then b else a
  {
    hide Pow2;
    assert B > 1 by { WordFacts(); }
    AndOnes(a);
    AndOnes(b);
    OrZero(a);
    OrZero(b);
  }

  method SwapLimbs(p: array<Limb>, q: array<Limb>, swap: nat)
    requires p != q && p.Length == q.Length && swap <= 1
    modifies p, q
    ensures p[..] == old(if swap == 1 then q[..] else p[..])
    ensures q[..] == old(if swap == 1 then p[..] else q[..])
  {
    hide *;
    assert B > 1 by { WordFacts(); }
    ghost var p0, q0 := p[..], q[..];
    var limbMask := MpiUintMask(swap);
    for i := 0 to p.Length
      invariant forall k :: 0 <= k < i ==> p[k] == if swap == 1 then q0[k] else p0[k]
      invariant forall k :: 0 <= k < i ==> q[k] == if swap == 1 then p0[k] else q0[k]
      invariant forall k :: i <= k < p.Length ==> p[k] == p0[k] && q[k] == q0[k]
    {
      var a, b := p[i], q[i];
      PickLimb(a, b, swap);
      PickLimb(b, a, swap);
      p[i] := BitOr(BitAnd(a, NotW(limbMask)), BitAnd(b, limbMask));
      q[i] := BitOr(BitAnd(b, NotW(limbMask)), BitAnd(a, limbMask));
    }
  }

  /** Exchange the values of x and y if swap is 1. Both buffers end with the larger size. */
  method SafeCondSwap(x: Mpi, y: Mpi, swap: nat)
    requires Apart(x, y) && swap <= 1
    modifies x, x.p, y, y.p
    ensures x.p == old(x.p) || fresh(x.p)
    ensures y.p == old(y.p) || fresh(y.p)
    ensures x.s == old(if swap == 1 then y.s else x.s) && y.s == old(if swap == 1 then x.s else y.s)
    ensures x.Mag() == old(if swap == 1 then y.Mag() else x.Mag())
    ensures y.Mag() == old(if swap == 1 then x.Mag() else y.Mag())
    ensures x.p.Length == y.p.Length
  {
    hide Nat;
    if x == y { return; }
    Grow(x, y.p.Length);
    Grow(y, x.p.Length);
    x.s, y.s := if swap == 1 then y.s else x.s, if swap == 1 then x.s else y.s;
    SwapLimbs(x.p, y.p, swap);
  }
}
