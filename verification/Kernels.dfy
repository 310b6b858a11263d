/** The limb-buffer helpers of bignum.c and constant_time.c: they walk raw limb arrays in
    place, with the carries and the aliasing of the C code. */
module Kernels {
  import opened Arith
  import opened Words
  import opened Limbs
  import opened ConstantTime

  /** Replacing limb k so that limb plus carry out hold limb plus x moves exactly x, at
      the weight of limb k, into the number and its carry. */
  lemma CarryStep(w: seq<Limb>, k: nat, v: Limb, x: int, carry: int)
    requires k < |w| && w[k] + x == v + carry * B
    ensures Nat(w[k := v]) + carry * BPow(k + 1) == Nat(w) + x * BPow(k)
  {
    hide Nat, Pow2;
    NatUpdate(w, k, v);
    BPowStep(k);
    MulAssoc(carry, B, BPow(k));
    MulDist(v - w[k], carry * B, BPow(k));
  }

  /** A number below BPow(n) leaves no carry at limb n. */
  lemma NoCarryOut(low: nat, carry: nat, n: nat)
    requires low + carry * BPow(n) < BPow(n)
    ensures carry == 0
  {
    hide BPow;
    if carry >= 1 { MulMono(1, carry, BPow(n)); }
  }

  lemma MulHlpStep(w: seq<Limb>, k: nat, s: seq<Limb>, b: Limb, c: Limb, total: int)
    requires k < |w| && k < |s|
    requires Nat(w) + c * BPow(k) == total + b * Nat(s[..k])
    ensures var r := MulAddC(s[k], b, c, w[k]);
            Nat(w[k := r.0]) + r.1 * BPow(k + 1) == total + b * Nat(s[..k + 1])
  {
    hide Nat, BPow, MulAddC, Pow2;
    var r := MulAddC(s[k], b, c, w[k]);
    MulAddCExact(s[k], b, c, w[k]);
    CarryStep(w, k, r.0, s[k] * b + c, r.1);
    NatTake(s, k);
    MulDistMid(b, Nat(s[..k]), s[k], BPow(k));
    MulDist(s[k] * b, c, BPow(k));
    MulAssoc(s[k], b, BPow(k));
  }

  /** d += b * s from limb off upwards, carrying as far as needed. The buffers may be the
      same one when both start at limb 0. */
  method MulHlp(i: nat, s: array<Limb>, d: array<Limb>, off: nat, b: Limb)
    requires i <= s.Length && off + i <= d.Length
    requires s != d || off == 0
    requires Nat(d[off..]) + b * Nat(s[..i]) < BPow(d.Length - off)
    modifies d
    ensures Nat(d[off..]) == old(Nat(d[off..]) + b * Nat(s[..i]))
    ensures d[..off] == old(d[..off])
  {
    hide Nat, BPow, MulAddC, Pow2;
    ghost var s0 := s[..i];
    ghost var total := Nat(d[off..]);
    var c: Limb := 0;
    var k := 0;
    NatEmpty();
    assert s0[..0] == [];
    while k < i
      invariant k <= i
      invariant Nat(d[off..]) + c * BPow(k) == total + b * Nat(s0[..k])
      invariant forall j :: k <= j < i ==> s[j] == s0[j]
      invariant d[..off] == old(d[..off])
    {
      ghost var w := d[off..];
      MulHlpStep(w, k, s0, b, c, total);
      var r := MulAddC(s[k], b, c, d[off + k]);
      d[off + k] := r.0;
      c := r.1;
      assert d[off..] == w[k := r.0];
      k := k + 1;
    }
    assert s0[..i] == s0;
    while c != 0
      invariant k <= d.Length - off
      invariant Nat(d[off..]) + c * BPow(k) == total + b * Nat(s0)
      invariant d[..off] == old(d[..off])
      decreases d.Length - off - k
    {
      ghost var w := d[off..];
      if k == |w| { NoCarryOut(Nat(w), c, k); }
      var x: Limb := AddW(d[off + k], c);
      AddCarry(d[off + k], c);
      CarryStep(w, k, x, c, Bit(x < c));
      d[off + k] := x;
      assert d[off..] == w[k := x];
      c := Bit(x < c);
      k := k + 1;
    }
  }

  /** One subtracted limb: the difference, the borrow, and what they are worth. */
  lemma SubHlpLimb(l: Limb, r: Limb, c: Limb)
    requires c <= 1
    ensures var t := SubW(l, c);
            var c' := Bit(t < r) + Bit(l < c);
            c' <= 1 && l - r - c == SubW(t, r) - c' * B
  {
    hide Pow2;
    WordFacts();
    var t := SubW(l, c);
    SubBorrow(l, c);
    SubBorrow(t, r);
    if l < c { assert t == B - 1; }
    MulDist(Bit(t < r), Bit(l < c), B);
  }

  lemma SubHlpSum(l: int, r: int, c: int, x: int, c': int, p: int)
    requires l - r - c == x - c' * B
    ensures l * p - r * p - c * p == x * p - c' * (B * p)
  {
    MulDist(l, r, p);
    MulDist(l - r, c, p);
    MulDist(x, c' * B, p);
    MulAssoc(c', B, p);
  }

  lemma SubHlpStep(d: seq<Limb>, l: seq<Limb>, r: seq<Limb>, i: nat, c: Limb, x: Limb, c': Limb)
    requires i < |l| && i < |r| && |d| == i
    requires Nat(d) - c * BPow(i) == Nat(l[..i]) - Nat(r[..i])
    requires l[i] - r[i] - c == x - c' * B
    ensures Nat(d + [x]) - c' * BPow(i + 1) == Nat(l[..i + 1]) - Nat(r[..i + 1])
  {
    hide Nat, BPow, Pow2;
    NatConcat(d, [x]);
    NatSingle(x);
    NatTake(l, i);
    NatTake(r, i);
    BPowStep(i);
    SubHlpSum(l[i], r[i], c, x, c', BPow(i));
  }

  /** Difference of the low i limbs, and the borrow out of limb i. */
  function SubLimbs(l: seq<Limb>, r: seq<Limb>, i: nat): (seq<Limb>, Limb)
    requires i <= |l| && i <= |r|
  {
    if i == 0 then ([], 0)
    else
      var (d, c) := SubLimbs(l, r, i - 1);
      var t := SubW(l[i - 1], c);
      WordFacts();
      (d + [SubW(t, r[i - 1])], Bit(t < r[i - 1]) + Bit(l[i - 1] < c))
  }

  lemma SubLimbsBase(l: seq<Limb>, r: seq<Limb>)
    ensures SubLimbs(l, r, 0).0 == [] && SubLimbs(l, r, 0).1 == 0
  {}

  lemma SubLimbsStep(l: seq<Limb>, r: seq<Limb>, i: nat)
    requires i < |l| && i < |r|
    ensures var c := SubLimbs(l, r, i).1;
            var t := SubW(l[i], c);
            SubLimbs(l, r, i + 1).0 == SubLimbs(l, r, i).0 + [SubW(t, r[i])]
            && SubLimbs(l, r, i + 1).1 == Bit(t < r[i]) + Bit(l[i] < c)
            && SubLimbs(l, r, i + 1).1 <= 1
  {
    SubLimbsExact(l, r, i + 1);
  }

  lemma {:induction false} SubLimbsExact(l: seq<Limb>, r: seq<Limb>, i: nat)
    requires i <= |l| && i <= |r|
    ensures var (d, c) := SubLimbs(l, r, i);
            |d| == i && c <= 1 && Nat(d) - c * BPow(i) == Nat(l[..i]) - Nat(r[..i])
    decreases i
  {
    hide Nat, BPow, Pow2, SubW;
    if i == 0 {
      NatEmpty();
      assert l[..0] == [] && r[..0] == [];
    } else {
      SubLimbsExact(l, r, i - 1);
      var (d, c) := SubLimbs(l, r, i - 1);
      SubHlpLimb(l[i - 1], r[i - 1], c);
      SubHlpStep(d, l, r, i - 1, c, SubW(SubW(l[i - 1], c), r[i - 1]), SubLimbs(l, r, i).1);
    }
  }

  /** d = l - r over n limbs, modulo BPow(n); the result is the borrow. d may be l or r. */
  method SubHlp(n: nat, d: array<Limb>, dOff: nat, l: array<Limb>, lOff: nat, r: array<Limb>)
    returns (c: Limb)
    requires dOff + n <= d.Length && lOff + n <= l.Length && n <= r.Length
    requires d == l ==> dOff == lOff
    requires d == r ==> dOff == 0
    modifies d
    ensures c <= 1
    ensures Nat(d[dOff..dOff + n]) - c * BPow(n) == old(Nat(l[lOff..lOff + n]) - Nat(r[..n]))
    ensures forall j :: 0 <= j < d.Length && !(dOff <= j < dOff + n) ==> d[j] == old(d[j])
  {
    hide *;
    ghost var l0, r0 := l[lOff..lOff + n], r[..n];
    WordFacts();
    c := 0;
    var i := 0;
    SubLimbsBase(l0, r0);
    while i < n
      invariant i <= n
      invariant d[dOff..dOff + i] == SubLimbs(l0, r0, i).0 && c == SubLimbs(l0, r0, i).1
      invariant forall j :: i <= j < n ==> l[lOff + j] == l0[j] && r[j] == r0[j]
      invariant forall j :: 0 <= j < d.Length && !(dOff <= j < dOff + i) ==> d[j] == old(d[j])
    {
      SubLimbsStep(l0, r0, i);
      var z := Bit(l[lOff + i] < c);
      var t: Limb := SubW(l[lOff + i], c);
      c := Bit(t < r[i]) + z;
      d[dOff + i] := SubW(t, r[i]);
      assert d[dOff..dOff + i + 1] == SubLimbs(l0, r0, i).0 + [d[dOff + i]];
      i := i + 1;
    }
    SubLimbsExact(l0, r0, n);
    assert l0[..n] == l0 && r0[..n] == r0;
  }

  /** Selecting with a mask of all ones or all zeros: dest := src when condition is 1. */
  method CondAssign(n: nat, dest: array<Limb>, src: array<Limb>, sOff: nat, condition: nat)
    requires n <= dest.Length && sOff + n <= src.Length && condition <= 1
    requires dest != src
    modifies dest
    ensures dest[..n] == if condition == 1 then src[sOff..sOff + n] else old(dest[..n])
    ensures dest[n..] == old(dest[n..])
  {
    hide Nat, BPow;
    WordFacts();
    var mask := MpiUintMask(condition);
    var i := 0;
    while i < n
      invariant i <= n
      invariant forall j :: 0 <= j < i ==>
        dest[j] == if condition == 1 then src[sOff + j] else old(dest[j])
      invariant forall j :: i <= j < dest.Length ==> dest[j] == old(dest[j])
    {
      AndOnes(src[sOff + i]);
      AndOnes(dest[i]);
      OrZero(src[sOff + i]);
      OrZero(dest[i]);
      dest[i] := BitOr(BitAnd(src[sOff + i], mask), BitAnd(dest[i], NotW(mask)));
      i := i + 1;
    }
  }
}
