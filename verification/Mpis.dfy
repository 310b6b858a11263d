/** The MPI object of bignum.c: sign, limb buffer, and the operations that move limbs
    around without arithmetic. */
module Mpis {
  import opened Arith
  import opened Words
  import opened Limbs

  /** Number of limbs up to and including the highest nonzero one. */
  function Used(s: seq<Limb>): (u: nat)
    ensures u <= |s|
    ensures forall k :: u <= k < |s| ==> s[k] == 0
    ensures u > 0 ==> s[u - 1] != 0
  {
    if s == [] then 0
    else if s[|s| - 1] != 0 then |s|
    else Used(s[..|s| - 1])
  }

  lemma UsedUnique(s: seq<Limb>, u: nat)
    requires u <= |s| && (forall k :: u <= k < |s| ==> s[k] == 0) && (u > 0 ==> s[u - 1] != 0)
    ensures Used(s) == u
  {
    if Used(s) < u { assert false; }
  }

  lemma UsedBounds(s: seq<Limb>)
    ensures Nat(s) == Nat(s[..Used(s)]) && Nat(s) < BPow(Used(s))
    ensures Used(s) > 0 ==> BPow(Used(s) - 1) <= Nat(s)
    ensures Nat(s) == 0 <==> Used(s) == 0
  {
    hide Nat, BPow;
    var u := Used(s);
    NatZeroTail(s, u);
    NatBound(s[..u]);
    NatEmpty();
    if u > 0 {
      NatAtLeast(s, u - 1);
    } else {
      assert s[..0] == [];
    }
  }

  /** Outcomes of the operations: success and the MBEDTLS_ERR_MPI_* codes they return. */
  datatype Status =
    | Success
    | BadInputData
    | InvalidCharacter
    | BufferTooSmall
    | NegativeValue
    | DivisionByZero
    | NotAcceptable

  /** The integer with sign s and magnitude m. */
  function Signed(s: int, m: nat): int {
    var v: int := m;
    if s == -1 then -v else v
  }

  class Mpi {
    var s: int
    var p: array<Limb>

    /** Zero with no limbs. */
    constructor ()
      ensures s == 1 && p.Length == 0 && fresh(p)
      ensures Valid() && Val() == 0
    {
      s := 1;
      p := new Limb[0];
      new;
      assert p[..] == [];
    }

    ghost predicate HasSign()
      reads this
    {
      s == 1 || s == -1
    }

    /** A sign, and never a negative zero. */
    ghost predicate Valid()
      reads this, p
    {
      HasSign() && (Mag() == 0 ==> s == 1)
    }

    ghost function Mag(): nat
      reads this, p
    {
      Nat(p[..])
    }

    ghost function Val(): int
      reads this, p
    {
      Signed(s, Mag())
    }
  }

  /** Distinct objects do not share a limb buffer. */
  ghost predicate Apart(x: Mpi, y: Mpi)
    reads x, y
  {
    x == y || x.p != y.p
  }

  /** Room for at least nblimbs limbs; the value is kept. */
  method Grow(x: Mpi, nblimbs: nat)
    modifies x, x.p
    ensures x.p == old(x.p) || fresh(x.p)
    ensures x.s == old(x.s)
    ensures x.p.Length == if old(x.p.Length) < nblimbs then nblimbs else old(x.p.Length)
    ensures x.p[..old(x.p.Length)] == old(x.p[..])
    ensures forall k :: old(x.p.Length) <= k < x.p.Length ==> x.p[k] == 0
    ensures x.Mag() == old(x.Mag()) && (old(x.Valid()) ==> x.Valid())
  {
    hide Nat, BPow;
    if x.p.Length < nblimbs {
      var p := new Limb[nblimbs](_ => 0);
      forall k | 0 <= k < x.p.Length { p[k] := x.p[k]; }
      NatZeroTail(p[..], x.p.Length);
      assert p[..][..x.p.Length] == x.p[..];
      x.p := p;
    }
  }

  /** Drop leading zero limbs, but keep room for nblimbs limbs. */
  method Shrink(x: Mpi, nblimbs: nat)
    modifies x, x.p
    ensures x.p == old(x.p) || fresh(x.p)
    ensures x.s == old(x.s) && x.Mag() == old(x.Mag())
    ensures x.p.Length >= nblimbs
  {
    hide Nat, BPow;
    if x.p.Length <= nblimbs {
      Grow(x, nblimbs);
      return;
    }
    var i := x.p.Length - 1;
    while i > 0 && x.p[i] == 0
      invariant 0 <= i < x.p.Length
      invariant forall k :: i < k < x.p.Length ==> x.p[k] == 0
    {
      i := i - 1;
    }
    i := i + 1;
    if i < nblimbs { i := nblimbs; }
    var p := new Limb[i](k requires 0 <= k < i reads x, x.p => if k < x.p.Length then x.p[k] else 0);
    NatZeroTail(x.p[..], i);
    assert p[..] == x.p[..i];
    x.p := p;
  }

  /** Exactly n limbs, all zero. */
  method ResizeClear(x: Mpi, n: nat)
    modifies x, x.p
    ensures x.p == old(x.p) || fresh(x.p)
    ensures x.s == 1 && x.p.Length == n && x.Valid() && forall k :: 0 <= k < n ==> x.p[k] == 0
    ensures x.Mag() == 0
  {
    hide Nat, BPow;
    if x.p.Length == n {
      forall k | 0 <= k < n { x.p[k] := 0; }
    } else {
      x.p := new Limb[n](_ => 0);
    }
    x.s := 1;
    NatZeros(x.p[..]);
  }

  method UsedLimbs(p: array<Limb>) returns (j: nat)
    ensures j == Used(p[..])
  {
    j := p.Length;
    while j > 0 && p[j - 1] == 0
      invariant j <= p.Length
      invariant forall k :: j <= k < p.Length ==> p[k] == 0
    {
      j := j - 1;
    }
    UsedUnique(p[..], j);
  }

  /** Equal up to leading zeros. */
  lemma SameTail(a: seq<Limb>, b: seq<Limb>)
    requires forall k :: 0 <= k < |a| ==> a[k] == 0 || (k < |b| && a[k] == b[k])
    requires forall k :: 0 <= k < |b| ==> b[k] == 0 || (k < |a| && a[k] == b[k])
    ensures Nat(a) == Nat(b)
  {
    hide Nat, BPow;
    var m := if |a| < |b| then |a| else |b|;
    NatZeroTail(a, m);
    NatZeroTail(b, m);
    assert a[..m] == b[..m];
  }

  /** x := y. x never shrinks, and grows no further than y's significant limbs. */
  method Copy(x: Mpi, y: Mpi)
    requires Apart(x, y) && (y.p.Length == 0 ==> x.Valid() || x.p.Length > 0)
    modifies x, x.p
    ensures x.p == old(x.p) || fresh(x.p)
    ensures y.p.Length > 0 ==> x.s == old(y.s)
    ensures x.Mag() == old(y.Mag())
    ensures old(y.Valid()) ==> x.Valid() && x.Val() == old(y.Val())
    ensures y != x ==> y.Mag() == old(y.Mag()) && y.Val() == old(y.Val())
    ensures x.p.Length >= old(x.p.Length)
    ensures x != y && y.p.Length > 0 ==>
      var u := old(Used(y.p[..]));
      var i := if u == 0 then 1 else u;
      x.p.Length == if old(x.p.Length) < i then i else old(x.p.Length)
    ensures x == y || y.p.Length == 0 ==> x.p == old(x.p)
    ensures x == y ==> x.p[..] == old(x.p[..])
    ensures y.p.Length == 0 ==> x.Valid()
  {
    hide Nat, BPow;
    if x == y { return; }
    if y.p.Length == 0 {
      assert y.p[..] == [];
      NatEmpty();
      if x.p.Length != 0 {
        x.s := 1;
        forall k | 0 <= k < x.p.Length { x.p[k] := 0; }
      }
      NatZeros(x.p[..]);
      return;
    }
    var i := UsedLimbs(y.p);
    if i == 0 { i := 1; }
    x.s := y.s;
    if x.p.Length < i {
      Grow(x, i);
    } else {
      forall k | i <= k < x.p.Length { x.p[k] := 0; }
    }
    forall k | 0 <= k < i { x.p[k] := y.p[k]; }
    SameTail(x.p[..], y.p[..]);
    assert y.p[..] == old(y.p[..]);
  }

  /** Magnitude of a signed word; right even for the most negative one. */
  function SintAbs(z: int): (r: Limb)
    requires -(B / 2) <= z < B / 2
    ensures r == Abs(z)
  {
    WordFacts();
    if z >= 0 then z
    else
      ModSmall(-z, B);
      (0 - z) % B
  }

  method Lset(x: Mpi, z: int)
    requires -(B / 2) <= z < B / 2
    modifies x, x.p
    ensures x.p == old(x.p) || fresh(x.p)
    ensures x.Valid() && x.Val() == z
    ensures x.p.Length == if old(x.p.Length) == 0 then 1 else old(x.p.Length)
    ensures forall k :: 1 <= k < x.p.Length ==> x.p[k] == 0
  {
    hide Nat, BPow;
    Grow(x, 1);
    forall k | 0 <= k < x.p.Length { x.p[k] := 0; }
    x.p[0] := SintAbs(z);
    x.s := if z < 0 then -1 else 1;
    NatZeroTail(x.p[..], 1);
    assert x.p[..][..1] == [x.p[0]];
    NatSingle(x.p[0]);
  }

  // ---------- comparison ----------

  lemma UsedCompare(a: seq<Limb>, b: seq<Limb>)
    ensures Used(a) < Used(b) ==> Nat(a) < Nat(b)
  {
    hide Nat, BPow;
    if Used(a) < Used(b) {
      UsedBounds(a);
      UsedBounds(b);
      BPowMono(Used(a), Used(b) - 1);
    }
  }

  lemma LimbsDecide(a: seq<Limb>, b: seq<Limb>, i: nat)
    requires 0 < i <= |a| && i <= |b|
    requires forall k :: i <= k < |a| ==> a[k] == 0 || (k < |b| && a[k] == b[k])
    requires forall k :: i <= k < |b| ==> b[k] == 0 || (k < |a| && a[k] == b[k])
    requires a[i - 1] < b[i - 1]
    ensures Nat(a) < Nat(b)
  {
    hide Nat, BPow;
    NatCompare(a, b, i - 1);
    NatSplit(a, i);
    NatSplit(b, i);
    SameTail(a[i..], b[i..]);
  }

  function Sign(x: int): int { if x < 0 then -1 else if x > 0 then 1 else 0 }

  /** Limb by limb from the top, for buffers with equally many significant limbs. */
  method CmpLimbs(x: array<Limb>, y: array<Limb>, n: nat) returns (r: int)
    requires n == Used(x[..]) == Used(y[..])
    ensures r == Sign(Nat(x[..]) - Nat(y[..]))
  {
    hide Nat, BPow;
    var i := n;
    while i > 0
      invariant 0 <= i <= n
      invariant forall k :: i <= k < n ==> x[k] == y[k]
    {
      if x[i - 1] > y[i - 1] {
        LimbsDecide(y[..], x[..], i);
        return 1;
      }
      if x[i - 1] < y[i - 1] {
        LimbsDecide(x[..], y[..], i);
        return -1;
      }
      i := i - 1;
    }
    SameTail(x[..], y[..]);
    return 0;
  }

  method CmpAbs(x: Mpi, y: Mpi) returns (r: int)
    ensures r == Sign(x.Mag() - y.Mag())
  {
    hide Nat, BPow;
    var i := UsedLimbs(x.p);
    var j := UsedLimbs(y.p);
    UsedBounds(x.p[..]);
    UsedBounds(y.p[..]);
    UsedCompare(x.p[..], y.p[..]);
    UsedCompare(y.p[..], x.p[..]);
    if i == 0 && j == 0 { return 0; }
    if i > j { return 1; }
    if j > i { return -1; }
    r := CmpLimbs(x.p, y.p, i);
  }

  method CmpMpi(x: Mpi, y: Mpi) returns (r: int)
    requires x.HasSign() && y.HasSign()
    ensures r == Sign(x.Val() - y.Val())
  {
    hide Nat, BPow;
    var i := UsedLimbs(x.p);
    var j := UsedLimbs(y.p);
    UsedBounds(x.p[..]);
    UsedBounds(y.p[..]);
    UsedCompare(x.p[..], y.p[..]);
    UsedCompare(y.p[..], x.p[..]);
    if i == 0 && j == 0 { return 0; }
    if i > j { return x.s; }
    if j > i { return -y.s; }
    if x.s > 0 && y.s < 0 { return 1; }
    if y.s > 0 && x.s < 0 { return -1; }
    var c := CmpLimbs(x.p, y.p, i);
    return if c > 0 then x.s else if c < 0 then -x.s else 0;
  }

  /** A one-limb MPI on the stack, as the *_int functions build it. */
  method OneLimb(z: int) returns (y: Mpi)
    requires -(B / 2) <= z < B / 2
    ensures fresh(y) && fresh(y.p) && y.Valid() && y.Val() == z && y.p.Length == 1
  {
    hide Nat, BPow;
    y := new Mpi();
    y.p := new Limb[1](_ => SintAbs(z));
    y.s := if z < 0 then -1 else 1;
    assert y.p[..] == [SintAbs(z)];
    NatSingle(SintAbs(z));
  }

  method CmpInt(x: Mpi, z: int) returns (r: int)
    requires x.HasSign() && -(B / 2) <= z < B / 2
    ensures r == Sign(x.Val() - z)
  {
    var y := OneLimb(z);
    r := CmpMpi(x, y);
  }
}
