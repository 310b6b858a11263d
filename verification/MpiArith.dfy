/** Addition, subtraction and multiplication of MPIs: the carry and borrow loops refine
    integer arithmetic, whichever operands are the same object. */
module MpiArith {
  import opened Arith
  import opened Words
  import opened Limbs
  import opened Kernels
  import opened Mpis

  lemma AddLimb(p: Limb, c: Limb, t: Limb)
    requires c <= 1
    ensures var p1 := AddW(p, c);
            var p2 := AddW(p1, t);
            var c' := Bit(p1 < c) + Bit(p2 < t);
            c' <= 1 && p + (c + t) == p2 + c' * B
  {
    hide Pow2;
    WordFacts();
    var p1 := AddW(p, c);
    AddCarry(p, c);
    AddCarry(p1, t);
    MulDist(Bit(p1 < c), Bit(AddW(p1, t) < t), B);
    if p1 < c { assert p1 == 0; }
  }

  /** x = |a| + |b|. */
  method AddAbs(x: Mpi, a: Mpi, b: Mpi)
    requires (x.Valid() || x.p.Length > 0) && Apart(x, a) && Apart(x, b)
    modifies x, x.p
    ensures x.p == old(x.p) || fresh(x.p)
    ensures x.s == 1 && x.Mag() == old(a.Mag() + b.Mag())
    ensures x.p.Length >= old(x.p.Length)
  {
    hide Nat, BPow, AddW;
    var a', b' := a, b;
    if x == b { a', b' := x, a; }
    if x != a' { Copy(x, a'); }
    x.s := 1;
    var j := UsedLimbs(b'.p);
    UsedBounds(b'.p[..]);
    ghost var total := x.Mag();
    assert b'.Mag() == old(b'.Mag());
    if j == 0 { return; }
    Grow(x, j);
    ghost var o := b'.p[..j];
    SameTail(b'.p[..], o);
    assert Nat(o) == old(b'.Mag());
    var c, i := AddLimbs(x, b', j, total);
    AddFinalCarry(x, c, i, total + Nat(o));
  }

  method AddLimbs(x: Mpi, b: Mpi, j: nat, ghost total: nat) returns (c: Limb, i: nat)
    requires Apart(x, b) && j <= x.p.Length && j <= b.p.Length && x.Mag() == total
    modifies x.p
    ensures i == j && c <= 1
    ensures x.Mag() + c * BPow(i) == total + old(Nat(b.p[..j]))
  {
    hide Nat, BPow, AddW;
    ghost var o := b.p[..j];
    WordFacts();
    c, i := 0, 0;
    NatEmpty();
    assert o[..0] == [];
    while i < j
      invariant i <= j && c <= 1
      invariant x.Mag() + c * BPow(i) == total + Nat(o[..i])
      invariant forall k :: i <= k < j ==> b.p[k] == o[k]
    {
      ghost var w, c0 := x.p[..], c;
      var tmp: Limb := b.p[i];
      AddLimb(x.p[i], c, tmp);
      x.p[i] := AddW(x.p[i], c);
      c := Bit(x.p[i] < c);
      x.p[i] := AddW(x.p[i], tmp);
      c := c + Bit(x.p[i] < tmp);
      assert x.p[..] == w[i := x.p[i]];
      CarryStep(w, i, x.p[i], c0 + tmp, c);
      NatTake(o, i);
      MulDist(c0, tmp, BPow(i));
      i := i + 1;
    }
    assert o[..j] == o;
  }

  method AddFinalCarry(x: Mpi, c0: Limb, i0: nat, ghost total: nat)
    requires c0 <= 1 && i0 <= x.p.Length && x.Mag() + c0 * BPow(i0) == total
    modifies x, x.p
    ensures x.p == old(x.p) || fresh(x.p)
    ensures x.s == old(x.s) && x.Mag() == total && x.p.Length >= old(x.p.Length)
  {
    hide Nat, BPow, AddW;
    var c: Limb, i: nat := c0, i0;
    WordFacts();
    while c != 0
      invariant x.p == old(x.p) || fresh(x.p)
      invariant x.s == old(x.s) && x.p.Length >= old(x.p.Length)
      invariant c <= 1 && i <= x.p.Length && x.Mag() + c * BPow(i) == total
      decreases c, x.p.Length - i
    {
      if i >= x.p.Length { Grow(x, i + 1); }
      ghost var w := x.p[..];
      var v: Limb := AddW(x.p[i], c);
      AddCarry(x.p[i], c);
      CarryStep(w, i, v, c, Bit(v < c));
      x.p[i] := v;
      assert x.p[..] == w[i := v];
      c := Bit(v < c);
      i := i + 1;
    }
  }

  // ---------- subtraction ----------

  /** Room for a's limbs in x, and a's limbs from limb n upwards. */
  method LayHigh(x: Mpi, a: Mpi, n: nat)
    requires Apart(x, a) && n <= a.p.Length
    modifies x, x.p
    ensures x.p == old(x.p) || fresh(x.p)
    ensures x.s == old(x.s)
    ensures x.p.Length >= old(x.p.Length) && x.p.Length >= old(a.p.Length)
    ensures forall k :: 0 <= k < n ==> x.p[k] == if k < old(x.p.Length) then old(x.p[k]) else 0
    ensures forall k :: n <= k < x.p.Length ==>
      x.p[k] == if k < old(a.p.Length) then old(a.p[k]) else 0
  {
    hide Nat, BPow;
    Grow(x, a.p.Length);
    if a.p.Length > n && a != x {
      forall k | n <= k < a.p.Length { x.p[k] := a.p[k]; }
    }
    if x.p.Length > a.p.Length {
      forall k | a.p.Length <= k < x.p.Length { x.p[k] := 0; }
    }
  }

  method SubLow(x: Mpi, a: Mpi, b: Mpi, n: nat) returns (carry: Limb)
    requires Apart(x, a) && Apart(x, b)
    requires n <= a.p.Length && n == Used(b.p[..])
    modifies x, x.p
    ensures x.p == old(x.p) || fresh(x.p)
    ensures x.s == old(x.s) && x.p.Length >= old(x.p.Length) && n <= x.p.Length
    ensures carry <= 1
    ensures x.Mag() - carry * BPow(n) == old(a.Mag() - b.Mag())
  {
    hide Nat, BPow;
    ghost var a0, b0 := a.p[..], b.p[..];
    LayHigh(x, a, n);
    assert a.p[0..n] == a0[..n] && b.p[..n] == b0[..n];
    carry := SubHlp(n, x.p, 0, a.p, 0, b.p);
    SubLowValue(x.p[..], a0, b0, n, carry);
  }

  lemma SubLowValue(x: seq<Limb>, a: seq<Limb>, b: seq<Limb>, n: nat, carry: Limb)
    requires n <= |a| <= |x| && n == Used(b)
    requires forall k :: n <= k < |x| ==> x[k] == if k < |a| then a[k] else 0
    requires Nat(x[0..n]) - carry * BPow(n) == Nat(a[..n]) - Nat(b[..n])
    ensures Nat(x) - carry * BPow(n) == Nat(a) - Nat(b)
  {
    hide Nat, BPow;
    assert x[0..n] == x[..n];
    NatSplit(x, n);
    NatSplit(a, n);
    SameTail(x[n..], a[n..]);
    UsedBounds(b);
  }

  /** Take the borrow from the first nonzero limb at or above n0. */
  method Borrow(x: Mpi, n0: nat, ghost total: int) returns (ok: bool)
    requires n0 <= x.p.Length && x.Mag() - BPow(n0) == total
    modifies x.p
    ensures ok <==> total >= 0
    ensures ok ==> x.Mag() == total
  {
    hide Nat, BPow, SubW;
    WordFacts();
    var n: nat := n0;
    while n < x.p.Length && x.p[n] == 0
      invariant n <= x.p.Length && x.Mag() - BPow(n) == total
    {
      ghost var w := x.p[..];
      SubBorrow(0, 1);
      x.p[n] := SubW(x.p[n], 1);
      assert x.p[..] == w[n := x.p[n]];
      CarryStep(w, n, x.p[n], -1, -1);
      n := n + 1;
    }
    NatBound(x.p[..]);
    if n == x.p.Length { return false; }
    ghost var w := x.p[..];
    SubBorrow(x.p[n], 1);
    x.p[n] := SubW(x.p[n], 1);
    assert x.p[..] == w[n := x.p[n]];
    CarryStep(w, n, x.p[n], -1, 0);
    return true;
  }

  /** x = |a| - |b|, refused exactly when that is negative. */
  method SubAbs(x: Mpi, a: Mpi, b: Mpi) returns (ret: Status)
    requires Apart(x, a) && Apart(x, b)
    modifies x, x.p
    ensures x.p == old(x.p) || fresh(x.p)
    ensures ret == if old(a.Mag()) < old(b.Mag()) then NegativeValue else Success
    ensures ret.Success? ==> x.s == 1 && x.Mag() == old(a.Mag() - b.Mag())
    ensures x.p.Length >= old(x.p.Length)
  {
    hide Nat, BPow;
    var n := UsedLimbs(b.p);
    UsedBounds(b.p[..]);
    if n > a.p.Length {
      NatBound(a.p[..]);
      BPowMono(a.p.Length, n - 1);
      return NegativeValue;
    }
    ghost var total := a.Mag() - b.Mag();
    var carry := SubLow(x, a, b, n);
    if carry != 0 {
      var ok := Borrow(x, n, total);
      if !ok { return NegativeValue; }
    }
    x.s := 1;
    return Success;
  }

  // ---------- signed addition and subtraction ----------

  /** x = a + b * flip, for flip 1 or -1. A negative zero is allowed for b. */
  method AddSub(x: Mpi, a: Mpi, b: Mpi, flip: int)
    requires (x.Valid() || x.p.Length > 0) && a.Valid() && b.HasSign() && Apart(x, a) && Apart(x, b)
    requires flip == 1 || flip == -1
    modifies x, x.p
    ensures x.p == old(x.p) || fresh(x.p)
    ensures x.Valid() && x.Val() == old(if flip == 1 then a.Val() + b.Val() else a.Val() - b.Val())
    ensures x.p.Length >= old(x.p.Length)
  {
    hide Nat, BPow;
    var s := a.s;
    if a.s * b.s * flip < 0 {
      var cmp := CmpAbs(a, b);
      if cmp >= 0 {
        var ret := SubAbs(x, a, b);
        x.s := if cmp == 0 then 1 else s;
      } else {
        var ret := SubAbs(x, b, a);
        x.s := -s;
      }
    } else {
      AddAbs(x, a, b);
      x.s := s;
    }
  }

  method AddMpi(x: Mpi, a: Mpi, b: Mpi)
    requires (x.Valid() || x.p.Length > 0) && a.Valid() && b.HasSign() && Apart(x, a) && Apart(x, b)
    modifies x, x.p
    ensures x.p == old(x.p) || fresh(x.p)
    ensures x.Valid() && x.Val() == old(a.Val() + b.Val())
    ensures x.p.Length >= old(x.p.Length)
  {
    AddSub(x, a, b, 1);
  }

  method SubMpi(x: Mpi, a: Mpi, b: Mpi)
    requires x.Valid() && a.Valid() && b.Valid() && Apart(x, a) && Apart(x, b)
    modifies x, x.p
    ensures x.p == old(x.p) || fresh(x.p)
    ensures x.Valid() && x.Val() == old(a.Val() - b.Val())
    ensures x.p.Length >= old(x.p.Length)
  {
    AddSub(x, a, b, -1);
  }

  method AddInt(x: Mpi, a: Mpi, z: int)
    requires x.Valid() && a.Valid() && Apart(x, a) && -(B / 2) <= z < B / 2
    modifies x, x.p
    ensures x.p == old(x.p) || fresh(x.p)
    ensures x.Valid() && x.Val() == old(a.Val()) + z
  {
    var b := OneLimb(z);
    AddMpi(x, a, b);
  }

  method SubInt(x: Mpi, a: Mpi, z: int)
    requires x.Valid() && a.Valid() && Apart(x, a) && -(B / 2) <= z < B / 2
    modifies x, x.p
    ensures x.p == old(x.p) || fresh(x.p)
    ensures x.Valid() && x.Val() == old(a.Val()) - z
  {
    var b := OneLimb(z);
    SubMpi(x, a, b);
  }

  // ---------- multiplication ----------

  /** One row of the schoolbook product: the rows from limb k upwards. */
  lemma MulRow(high: seq<Limb>, a: nat, b: seq<Limb>, k: nat)
    requires k < |b| && Nat(high) == a * Nat(b[k + 1..])
    ensures Nat([0] + high) + b[k] * a == a * Nat(b[k..])
  {
    hide Nat, BPow, Pow2;
    NatCons(0, high);
    assert b[k..] == [b[k]] + b[k + 1..];
    NatCons(b[k], b[k + 1..]);
    MulAssoc(a, B, Nat(b[k + 1..]));
    MulDist(b[k], B * Nat(b[k + 1..]), a);
    MulAssoc(B, a, Nat(b[k + 1..]));
  }

  lemma ProductBound(a: nat, b: nat, i: nat, j: nat, n: nat)
    requires a < BPow(i) && b < BPow(j) && i + j <= n
    ensures a * b < BPow(n)
  {
    hide BPow;
    BPowAdd(i, j);
    BPowMono(i + j, n);
    MulMono(0, a, b);
    MulMono(a, BPow(i), b);
    MulStrict(b, BPow(j), BPow(i));
  }

  /** x.p += a * b, a row at a time from b's highest limb down. */
  method MulRows(x: Mpi, a: Mpi, b: Mpi, i: nat, j: nat)
    requires x.p != a.p && x.p != b.p
    requires i == Used(a.p[..]) && j == Used(b.p[..]) && i + j <= x.p.Length
    requires forall k :: 0 <= k < x.p.Length ==> x.p[k] == 0
    modifies x.p
    ensures x.Mag() == a.Mag() * b.Mag()
  {
    hide Nat, BPow;
    ghost var bs := b.p[..j];
    UsedBounds(a.p[..]);
    assert a.p[..i] == a.p[..][..i];
    UsedBounds(b.p[..]);
    assert b.p[..j] == b.p[..][..j];
    var k := j;
    NatZeros(x.p[k..]);
    NatEmpty();
    assert bs[j..] == [];
    while k > 0
      invariant 0 <= k <= j
      invariant Nat(x.p[k..]) == Nat(a.p[..i]) * Nat(bs[k..])
      invariant forall t :: 0 <= t < k ==> x.p[t] == 0
    {
      assert x.p[k - 1..] == [0] + x.p[k..];
      MulRow(x.p[k..], Nat(a.p[..i]), bs, k - 1);
      NatBound(bs[k - 1..]);
      ProductBound(Nat(a.p[..i]), Nat(bs[k - 1..]), i, j - k + 1, x.p.Length - (k - 1));
      ghost var low := x.p[..k - 1];
      MulHlp(i, a.p, x.p, k - 1, b.p[k - 1]);
      assert forall t :: 0 <= t < k - 1 ==> x.p[t] == x.p[..k - 1][t] == low[t];
      k := k - 1;
    }
    assert x.p[0..] == x.p[..] && bs[0..] == bs;
  }

  lemma MulSigns(s: int, m: nat, t: int, n: nat)
    requires (s == 1 || s == -1) && (t == 1 || t == -1)
    ensures Signed(s, m) * Signed(t, n) == Signed(s * t, m * n)
    ensures m * n == 0 <==> m == 0 || n == 0
  {
    if m > 0 && n > 0 { MulPos(m, n); }
  }

  /** x = a * b, x being neither operand. */
  method MulApart(x: Mpi, a: Mpi, b: Mpi)
    requires x.Valid() && a.Valid() && b.Valid()
    requires x != a && x != b && x.p != a.p && x.p != b.p
    modifies x, x.p
    ensures x.p == old(x.p) || fresh(x.p)
    ensures x.Valid() && x.Val() == a.Val() * b.Val()
    ensures x.p.Length >= old(x.p.Length)
  {
    hide Nat, BPow, Used;
    var i := UsedLimbs(a.p);
    var j := UsedLimbs(b.p);
    Grow(x, i + j);
    Lset(x, 0);
    NatZeroLimbs(x.p[..]);
    assert forall k :: 0 <= k < x.p.Length ==> x.p[k] == x.p[..][k];
    MulRows(x, a, b, i, j);
    UsedBounds(a.p[..]);
    UsedBounds(b.p[..]);
    MulSigns(a.s, a.Mag(), b.s, b.Mag());
    x.s := if i == 0 || j == 0 then 1 else a.s * b.s;
  }

  /** x = a * b. */
  method MulMpi(x: Mpi, a: Mpi, b: Mpi)
    requires x.Valid() && a.Valid() && b.Valid() && Apart(x, a) && Apart(x, b)
    modifies x, x.p
    ensures x.p == old(x.p) || fresh(x.p)
    ensures x.Valid() && x.Val() == old(a.Val() * b.Val())
    ensures x.p.Length >= old(x.p.Length)
  {
    hide Nat, BPow;
    var a', b' := a, b;
    if x == a {
      a' := new Mpi();
      Copy(a', a);
    }
    if x == b {
      b' := new Mpi();
      Copy(b', b);
    }
    MulApart(x, a', b');
  }

  lemma UsedPrefix(s: seq<Limb>, t: seq<Limb>, n: nat)
    requires |t| <= |s| && n == Used(t) && s[..|t|] == t
    requires forall k :: |t| <= k < |s| ==> s[k] == 0
    ensures n <= |s| && s[..n] == t[..n] && Nat(s[..n]) == Nat(t)
  {
    hide Nat, BPow;
    UsedBounds(t);
  }

  /** With x already holding a, adding a * (b - 1) makes it a * b. */
  method MulOnto(x: Mpi, a: Mpi, n: nat, b: Limb)
    requires Apart(x, a) && n <= a.p.Length && n < x.p.Length && b > 0
    requires x.Mag() == Nat(a.p[..n])
    modifies x.p
    ensures x.Mag() == old(x.Mag()) * b
  {
    hide Nat, BPow;
    ghost var m := x.Mag();
    NatBound(a.p[..n]);
    BPowStep(0);
    ProductBound(m, b, n, 1, x.p.Length);
    MulDist(b, 1, m);
    assert x.p[0..] == x.p[..];
    MulHlp(n, a.p, x.p, 0, b - 1);
    assert x.p[0..] == x.p[..];
  }

  /** x = a * b for one limb b, computed as a + a * (b - 1). */
  method MulInt(x: Mpi, a: Mpi, b: Limb)
    requires x.Valid() && a.Valid() && Apart(x, a)
    modifies x, x.p
    ensures x.p == old(x.p) || fresh(x.p)
    ensures x.Valid() && x.Val() == old(a.Val()) * b
    ensures x.p.Length >= old(x.p.Length)
  {
    hide Nat, BPow, Used;
    var n := UsedLimbs(a.p);
    UsedBounds(a.p[..]);
    WordFacts();
    if b == 0 || n == 0 {
      Lset(x, 0);
      return;
    }
    ghost var m, s := a.Mag(), a.s;
    ghost var a0 := a.p[..];
    Grow(x, n + 1);
    Copy(x, a);
    UsedPrefix(a.p[..], a0, n);
    MulOnto(x, a, n, b);
    MulSigns(s, m, 1, b);
  }
}
