/** Montgomery multiplication (HAC 14.36): Newton's inverse of the modulus, the in-place
    reduction in the scratch buffer, and the final branch-free subtraction. */
module Montgomery {
  import opened Arith
  import opened Words
  import opened Limbs
  import opened Kernels
  import opened Mpis

  // ---------- -1 / N modulo the word size ----------

  /** The starting value is an inverse modulo 16. */
  lemma SeedInverse(n0: nat, e: nat)
    requires n0 % 2 == 1 && e == BitAnd(n0 + 2, 4) * 2
    ensures (n0 + e) * n0 % 16 == 1
  {
    hide *;
    SeedResidue(n0, e);
    SeedTable(n0 % 16, e);
    SeedProduct(n0, n0 / 16, n0 % 16, e);
  }

  lemma SeedResidue(n0: nat, e: nat)
    requires n0 % 2 == 1 && e == BitAnd(n0 + 2, 4) * 2
    ensures n0 % 16 % 2 == 1 && n0 == 16 * (n0 / 16) + n0 % 16
    ensures e == if n0 % 16 % 8 == 3 || n0 % 16 % 8 == 5 then 8 else 0
  {
    hide *;
    SeedBit(n0 + 2);
    ResidueOfEight(n0);
  }

  lemma ResidueOfEight(n: nat)
    requires n % 2 == 1
    ensures (n + 2) % 8 >= 4 <==> n % 16 % 8 == 3 || n % 16 % 8 == 5
  {
    assert n % 16 % 8 == n % 8;
    assert n % 8 == 1 || n % 8 == 3 || n % 8 == 5 || n % 8 == 7;
  }

  lemma SeedTable(r: nat, e: nat)
    requires r < 16 && r % 2 == 1 && e == if r % 8 == 3 || r % 8 == 5 then 8 else 0
    ensures (r + e) * r % 16 == 1
  {
    assert r == 1 || r == 3 || r == 5 || r == 7 || r == 9 || r == 11 || r == 13 || r == 15;
  }

  lemma SeedBit(x: nat)
    ensures BitAnd(x, 4) == if x % 8 >= 4 then 4 else 0
  {
    assert BitAnd(x / 2 / 2, 1) == x / 2 / 2 % 2;
    assert BitAnd(x / 2, 2) == 2 * BitAnd(x / 2 / 2, 1);
    assert BitAnd(x, 4) == 2 * BitAnd(x / 2, 2);
  }

  lemma SeedProduct(n0: nat, k: int, r: nat, e: nat)
    requires n0 == 16 * k + r
    ensures (n0 + e) * n0 % 16 == (r + e) * r % 16
  {
    CongIntro(n0 + e, r + e, k, 16);
    CongIntro(n0, r, k, 16);
    CongMul(n0 + e, r + e, n0, r, 16);
  }

  /** One Newton step doubles the number of correct bits. */
  lemma NewtonStep(n0: int, x: int, m: int)
    requires m > 0 && Cong(n0 * x, 1, m)
    ensures m * m > 0 && Cong(n0 * (x * (2 - n0 * x)), 1, m * m)
  {
    MulPos(m, m);
    var k := CongElim(n0 * x, 1, m);
    var e := k * m;
    // with n0 * x = 1 + e, the new product is 1 - e * e
    MulAssoc(n0, x, 2 - n0 * x);
    assert (1 + e) * (2 - (1 + e)) == 1 - e * e;
    MulSwap(k, m, k, m);
    assert -(k * k * (m * m)) == (-(k * k)) * (m * m);
    CongIntro(n0 * (x * (2 - n0 * x)), 1, -(k * k), m * m);
  }

  /** Working modulo B loses nothing modulo a divisor of B. */
  lemma CongCoarser(a: int, b: int, m: int, f: int)
    requires m > 0 && f > 0 && m * f > 0 && Cong(a, b, m * f)
    ensures Cong(a, b, m)
  {
    var k := CongElim(a, b, m * f);
    MulAssoc(k, f, m);
    CongIntro(a, b, k * f, m);
  }

  /** The word operations of a Newton step compute it modulo B. */
  lemma NewtonWraps(n0: Limb, x: Limb)
    ensures Cong(n0 * MulW(x, SubW(2, MulW(n0, x))), n0 * (x * (2 - n0 * x)), B)
  {
    hide Pow2, Cong;
    WordFacts();
    var p := MulW(n0, x);
    CongMod(n0 * x, B);
    var pi: int, ni: int := p, n0 * x;
    CongNeg(pi, ni, B);
    CongRefl(2, B);
    CongAdd(2, 2, -pi, -ni, B);
    var q := SubW(2, p);
    CongMod(2 - pi, B);
    CongTrans(q, 2 - pi, 2 - ni, B);
    CongRefl(x, B);
    CongMul(x, x, q, 2 - ni, B);
    CongMod(x * q, B);
    CongTrans(MulW(x, q), x * q, x * (2 - ni), B);
    CongRefl(n0, B);
    CongMul(n0, n0, MulW(x, q), x * (2 - ni), B);
  }

  lemma NewtonWord(n0: Limb, x: Limb, j: nat)
    requires 0 < 2 * j <= biL && Cong(n0 * x, 1, Pow2(j))
    ensures Cong(n0 * MulW(x, SubW(2, MulW(n0, x))), 1, Pow2(2 * j))
  {
    hide *;
    WordFacts();
    var exact := n0 * (x * (2 - n0 * x));
    var m := Pow2(2 * j);
    assert Cong(exact, 1, m) by {
      Pow2Add(j, j);
      NewtonStep(n0, x, Pow2(j));
    }
    var w := n0 * MulW(x, SubW(2, MulW(n0, x)));
    assert Cong(w, exact, m) by {
      NewtonWraps(n0, x);
      Pow2Add(2 * j, biL - 2 * j);
      CongCoarser(w, exact, m, Pow2(biL - 2 * j));
    }
    CongTrans(w, exact, 1, m);
  }

  /** mm with mm * N[0] = -1 modulo the word size. */
  method MontmulInit(n: array<Limb>) returns (mm: Limb)
    requires n.Length > 0 && n[0] % 2 == 1
    ensures Cong(n[0] * mm, -1, B)
  {
    hide Pow2, BitAnd, Cong, MulW, SubW, AddW;
    WordFacts();
    var x: Limb := n[0];
    SeedFits(n[0]);
    x := AddW(x, ShlW(BitAnd(AddW(n[0], 2), 4), 1));
    var i: nat := biL;
    ghost var j: nat := 4;
    Pow2Values();
    while i >= 8
      invariant i in {4, 8, 16, 32, 64} && j * i == 4 * biL
      invariant Cong(n[0] * x, 1, Pow2(j))
      decreases i
    {
      NewtonWord(n[0], x, j);
      x := MulW(x, SubW(2, MulW(n[0], x)));
      i := i / 2;
      j := 2 * j;
    }
    NegateInverse(n[0], x);
    mm := AddW(NotW(x), 1);
  }

  lemma SeedFits(n0: Limb)
    requires n0 % 2 == 1
    ensures BitAnd(AddW(n0, 2), 4) < B
    ensures Cong(n0 * AddW(n0, ShlW(BitAnd(AddW(n0, 2), 4), 1)), 1, Pow2(4))
  {
    hide Pow2, BitAnd, Cong;
    WordFacts();
    Pow2Values();
    SeedBit(AddW(n0, 2));
    SeedBit(n0 + 2);
    Pow2Add(3, biL - 3);
    CongMod(n0 + 2, B);
    CongCoarser(AddW(n0, 2), n0 + 2, 8, Pow2(biL - 3));
    CongIs(AddW(n0, 2), n0 + 2, 8);
    var e := BitAnd(n0 + 2, 4) * 2;
    ModSmall(e, B);
    SeedInverse(n0, e);
    SeedWraps(n0, e);
  }

  lemma SeedWraps(n0: Limb, e: Limb)
    requires (n0 + e) * n0 % 16 == 1
    ensures Cong(n0 * AddW(n0, e), 1, 16)
  {
    hide Pow2, Cong;
    Pow2Values();
    Pow2Add(4, biL - 4);
    CongMod(n0 + e, B);
    CongCoarser(AddW(n0, e), n0 + e, 16, Pow2(biL - 4));
    CongRefl(n0, 16);
    CongMul(n0, n0, AddW(n0, e), n0 + e, 16);
    CongIs((n0 + e) * n0, 1, 16);
    CongTrans(n0 * AddW(n0, e), n0 * (n0 + e), 1, 16);
  }

  lemma NegateInverse(n0: Limb, x: Limb)
    requires Cong(n0 * x, 1, B)
    ensures Cong(n0 * AddW(NotW(x), 1), -1, B)
  {
    hide Pow2, Cong;
    WordFacts();
    var m := AddW(NotW(x), 1);
    var xi: int := x;
    CongMod(B - xi, B);
    CongIntro(B - xi, -xi, 1, B);
    CongTrans(m, B - xi, -xi, B);
    CongRefl(n0, B);
    CongMul(n0, n0, m, -xi, B);
    CongNeg(n0 * xi, 1, B);
    assert n0 * (-xi) == -(n0 * xi);
    CongTrans(n0 * m, n0 * (-xi), -1, B);
  }

  // ---------- the multiplication ----------

  /** Adding u1 * N clears the low limb. */
  lemma LowLimbCancels(d0: Limb, u0: Limb, b0: Limb, n0: Limb, mm: Limb)
    requires Cong(n0 * mm, -1, B)
    ensures Cong(d0 + u0 * b0 + MulW(AddW(d0, MulW(u0, b0)), mm) * n0, 0, B)
  {
    hide Pow2, Cong;
    var v := d0 + u0 * b0;
    var w := AddW(d0, MulW(u0, b0));
    CongMod(u0 * b0, B);
    CongRefl(d0, B);
    CongAdd(d0, d0, MulW(u0, b0), u0 * b0, B);
    CongMod(d0 + MulW(u0, b0), B);
    CongTrans(w, d0 + MulW(u0, b0), v, B);
    var u1 := MulW(w, mm);
    CongMod(w * mm, B);
    CongRefl(n0, B);
    CongMul(u1, w * mm, n0, n0, B);
    CongMul(w, v, n0 * mm, -1, B);
    assert w * mm * n0 == w * (n0 * mm) by { MulAssoc(w, mm, n0); }
    CongTrans(u1 * n0, w * (n0 * mm), v * -1, B);
    CongRefl(v, B);
    CongAdd(v, v, u1 * n0, v * -1, B);
  }

  /** The running value of the reduction: x below nv + bv, and x * R_i congruent to the
      product of b with the limbs of a consumed so far. */
  ghost predicate MontState(x: nat, a: seq<Limb>, bv: nat, nv: nat, i: nat)
    requires nv > 0 && i <= |a|
  {
    x < nv + bv && Cong(x * BPow(i), Nat(a[..i]) * bv, nv)
  }

  lemma MontStart(a: seq<Limb>, bv: nat, nv: nat)
    requires nv > 0
    ensures MontState(0, a, bv, nv, 0)
  {
    NatEmpty();
    assert a[..0] == [];
  }

  /** One step: x := (x + u0 * b + u1 * n) / B. */
  lemma MontAdvance(x: nat, a: seq<Limb>, bv: nat, nv: nat, i: nat, u1: Limb, x': nat)
    requires nv > 0 && i < |a| && MontState(x, a, bv, nv, i)
    requires B * x' == x + a[i] * bv + u1 * nv
    ensures MontState(x', a, bv, nv, i + 1)
  {
    hide Nat, BPow, Pow2, Cong;
    WordFacts();
    var p := BPow(i);
    MulMono(a[i], B - 1, bv);
    MulMono(u1, B - 1, nv);
    MulDist(B, 1, bv);
    MulDist(B, 1, nv);
    MulDist(bv, nv, B);
    MulCancelLt(x', nv + bv, B);
    NatTake(a, i);
    BPowStep(i);
    MulAssoc(x', B, p);
    MulDist(x + a[i] * bv, u1 * nv, p);
    MulDist(x, a[i] * bv, p);
    MulAssoc(u1, nv, p);
    MulAssoc(u1, p, nv);
    MulDist(Nat(a[..i]), a[i] * p, bv);
    MulAssoc(a[i], bv, p);
    MulAssoc(a[i], p, bv);
    CongRefl(a[i] * bv * p, nv);
    CongAdd(x * p, Nat(a[..i]) * bv, a[i] * bv * p, a[i] * bv * p, nv);
    CongIntro(x' * BPow(i + 1), x * p + a[i] * bv * p, u1 * p, nv);
    CongTrans(x' * BPow(i + 1), x * p + a[i] * bv * p, Nat(a[..i + 1]) * bv, nv);
  }

  lemma CongOfLow(s: seq<Limb>)
    requires |s| > 0
    ensures Cong(Nat(s), s[0], B)
  {
    hide Pow2, Nat, BPow;
    NatLow(s);
    ModSmall(s[0], B);
  }

  lemma LowLimbOfSum(x: nat, bv: nat, nv: nat, d0: Limb, b0: Limb, n0: Limb, u0: Limb, mm: Limb)
    requires Cong(x, d0, B) && Cong(bv, b0, B) && Cong(nv, n0, B) && Cong(n0 * mm, -1, B)
    ensures var u1 := MulW(AddW(d0, MulW(u0, b0)), mm);
            Cong(x + u0 * bv + u1 * nv, 0, B)
  {
    hide *;
    WordFacts();
    var u1 := MulW(AddW(d0, MulW(u0, b0)), mm);
    LowLimbCancels(d0, u0, b0, n0, mm);
    CongRefl(u0, B);
    CongRefl(u1, B);
    CongMul(u0, u0, bv, b0, B);
    CongMul(u1, u1, nv, n0, B);
    CongAdd(x, d0, u0 * bv, u0 * b0, B);
    CongAdd(x + u0 * bv, d0 + u0 * b0, u1 * nv, u1 * n0, B);
    CongTrans(x + u0 * bv + u1 * nv, d0 + u0 * b0 + u1 * n0, 0, B);
  }

  /** The scratch buffer always has room for one more row. */
  lemma MontRoom(x: nat, bv: nat, nv: nat, u: Limb, u': Limb, n: nat, len: nat)
    requires x < nv + bv && bv <= nv < BPow(n) && n + 2 <= len
    ensures x + u * bv + u' * nv < BPow(len) && x + u * bv < BPow(len)
    ensures nv + bv < BPow(n + 1)
  {
    hide Pow2, BPow;
    WordFacts();
    MulMono(u, B - 1, bv);
    MulMono(u', B - 1, nv);
    MulMono(0, u', nv);
    MulDist(B, 1, bv);
    MulDist(B, 1, nv);
    MulMono(bv, nv, B);
    BPowStep(n);
    BPowStep(n + 1);
    MulMono(2, B, BPow(n));
    MulMono(2, B, BPow(n + 1));
    MulStrict(nv, BPow(n), B);
    BPowMono(n + 2, len);
  }

  /** Nat of the limbs that a store at or below index i leaves alone. */
  lemma SuffixKept(s: seq<Limb>, i: nat, v: Limb)
    requires i < |s|
    ensures s[i := v][i + 1..] == s[i + 1..]
  {}

  /** One pass of the loop, in the scratch buffer from limb i upwards. */
  method MontStep(b: Mpi, n: Mpi, t: Mpi, i: nat, m: nat, u0: Limb, mm: Limb) returns (ghost u1: Limb)
    requires t.p != b.p && t.p != n.p && 0 < m <= b.p.Length && m <= n.p.Length
    requires i < n.p.Length && t.p.Length >= 2 * (n.p.Length + 1)
    requires Nat(b.p[..m]) <= n.Mag() && Nat(t.p[i..]) < n.Mag() + Nat(b.p[..m])
    requires Cong(n.p[0] * mm, -1, B)
    modifies t.p
    ensures B * Nat(t.p[i + 1..]) == old(Nat(t.p[i..])) + u0 * Nat(b.p[..m]) + u1 * n.Mag()
  {
    hide Nat, BPow, Pow2, AddW, MulW, Cong;
    var nn := n.p.Length;
    ghost var x, bv, nv := Nat(t.p[i..]), Nat(b.p[..m]), n.Mag();
    CongOfLow(t.p[i..]);
    CongOfLow(b.p[..m]);
    CongOfLow(n.p[..]);
    LowLimbOfSum(x, bv, nv, t.p[i], b.p[0], n.p[0], u0, mm);
    var v1: Limb := MulW(AddW(t.p[i], MulW(u0, b.p[0])), mm);
    u1 := v1;
    NatBound(n.p[..]);
    MontRoom(x, bv, nv, u0, v1, nn, t.p.Length - i);
    assert n.p[..nn] == n.p[..];
    MulHlp(m, b.p, t.p, i, u0);
    MulHlp(nn, n.p, t.p, i, v1);
    ghost var w := t.p[i..];
    LowLimbZero(w);
    SuffixKept(w, 0, u0);
    t.p[i] := u0;
    assert t.p[i..] == w[0 := u0];
    assert t.p[i + 1..] == w[1..];
    MontNext(w, x, bv, nv, u0, v1, nn);
    ghost var w1 := t.p[i + 1..];
    t.p[i + nn + 2] := 0;
    assert w1[nn + 1] == 0;
    assert t.p[i + 1..] == w1;
  }

  lemma LowLimbZero(w: seq<Limb>)
    requires |w| > 0 && Cong(Nat(w), 0, B)
    ensures Nat(w) == B * Nat(w[1..])
  {
    hide Nat, BPow, Pow2;
    NatLow(w);
    ModSmall(0, B);
    DivModFacts(Nat(w), B);
  }

  lemma MontNext(w: seq<Limb>, x: nat, bv: nat, nv: nat, u0: Limb, u1: Limb, n: nat)
    requires n + 3 <= |w| && Nat(w) == x + u0 * bv + u1 * nv && Nat(w) == B * Nat(w[1..])
    requires x < nv + bv && nv + bv < BPow(n + 1)
    ensures w[1..][n + 1] == 0
  {
    hide Nat, BPow, Pow2;
    WordFacts();
    MulMono(u0, B - 1, bv);
    MulMono(u1, B - 1, nv);
    MulDist(B, 1, bv);
    MulDist(B, 1, nv);
    MulDist(bv, nv, B);
    MulCancelLt(Nat(w[1..]), nv + bv, B);
    NatFitsTail(w[1..], n + 1);
  }

  /** The top limb d[n] after adding one and taking the borrow off tells whether d >= N. */
  lemma FinalFlag(d: seq<Limb>, n: nat, nv: nat, low': nat, c: Limb)
    requires n + 1 <= |d| && Nat(d) < 2 * nv && nv < BPow(n) && c <= 1
    requires low' < BPow(n) && low' - c * BPow(n) == Nat(d[..n]) - nv
    ensures SubW(AddW(d[n], 1), c) == Bit(Nat(d) >= nv)
    ensures Nat(d) >= nv ==> low' == Nat(d) - nv
    ensures Nat(d) < nv ==> Nat(d[..n]) == Nat(d)
  {
    hide Nat, BPow, Pow2;
    WordFacts();
    var p := BPow(n);
    NatSplit(d, n);
    NatLow(d[n..]);
    NatBound(d[..n]);
    if Nat(d[n..]) >= 2 { MulMono(2, Nat(d[n..]), p); }
    ModSmall(Nat(d[n..]), B);
    assert d[n..][0] == d[n];
    ModSmall(d[n] + 1, B);
    ModSmall(d[n] + 1 - c, B);
  }

  /** What the arguments must be: an odd modulus with its -1/N, b at most the modulus, and
      scratch space. a may be b. */
  ghost predicate MontArgs(a: Mpi, b: Mpi, n: Mpi, mm: Limb, t: Mpi)
    reads a, b, b.p, n, n.p, t
  {
    n.p.Length > 0 && n.p.Length <= a.p.Length && b.p.Length > 0
    && t.p.Length >= 2 * (n.p.Length + 1)
    && t.p != a.p && t.p != b.p && t.p != n.p && a.p != n.p
    && Cong(n.p[0] * mm, -1, B) && Operand(b, n) <= n.Mag() && n.Mag() > 0
  }

  /** The part of b that the multiplication reads: no more limbs than the modulus has. */
  ghost function Operand(b: Mpi, n: Mpi): nat
    reads b, b.p, n
  {
    Nat(b.p[..if b.p.Length < n.p.Length then b.p.Length else n.p.Length])
  }

  /** a := a * b * R^-1 mod N in the low limbs of a, where R = BPow(limbs of N). */
  method MontMul(a: Mpi, b: Mpi, n: Mpi, mm: Limb, t: Mpi)
    requires MontArgs(a, b, n, mm, t)
    modifies a.p, t.p
    ensures Nat(a.p[..n.p.Length]) < n.Mag()
    ensures Cong(Nat(a.p[..n.p.Length]) * BPow(n.p.Length),
                 old(Nat(a.p[..n.p.Length]) * Operand(b, n)), n.Mag())
    ensures a.p[n.p.Length..] == old(a.p[n.p.Length..])
  {
    hide Nat, BPow, Pow2, Cong, MontState;
    var nn := n.p.Length;
    ghost var as0, bv, nv := a.p[..], Operand(b, n), n.Mag();
    assert as0[..nn] == a.p[..nn];
    MontLoop(a, b, n, mm, t);
    ghost var d := Nat(t.p[nn..]);
    MontBound(d, as0, bv, nv, nn);
    FinalSubtraction(a, n, t);
    MontResult(Nat(a.p[..nn]), d, Nat(as0[..nn]) * bv, nv, BPow(nn));
  }

  /** The main loop: the running value ends in the upper limbs of the scratch buffer. */
  method MontLoop(a: Mpi, b: Mpi, n: Mpi, mm: Limb, t: Mpi)
    requires MontArgs(a, b, n, mm, t)
    modifies t.p
    ensures MontState(Nat(t.p[n.p.Length..]), a.p[..], Operand(b, n), n.Mag(), n.p.Length)
  {
    hide Nat, BPow, Pow2, Cong, MontState;
    ghost var bv, nv := Operand(b, n), n.Mag();
    forall k | 0 <= k < t.p.Length { t.p[k] := 0; }
    assert t.p[0..] == t.p[..];
    NatZeros(t.p[0..]);
    var nn := n.p.Length;
    var m := if b.p.Length < nn then b.p.Length else nn;
    MontStart(a.p[..], bv, nv);
    for i := 0 to nn
      invariant Operand(b, n) == bv == Nat(b.p[..m]) && n.Mag() == nv
      invariant MontState(Nat(t.p[i..]), a.p[..], bv, nv, i)
    {
      ghost var x := Nat(t.p[i..]);
      MontBound(x, a.p[..], bv, nv, i);
      ghost var u1 := MontStep(b, n, t, i, m, a.p[i], mm);
      assert Nat(b.p[..m]) == bv && n.Mag() == nv;
      MontAdvance(x, a.p[..], bv, nv, i, u1, Nat(t.p[i + 1..]));
    }
  }

  lemma MontBound(x: nat, a: seq<Limb>, bv: nat, nv: nat, i: nat)
    requires nv > 0 && i <= |a| && MontState(x, a, bv, nv, i)
    ensures x < nv + bv && Cong(x * BPow(i), Nat(a[..i]) * bv, nv)
  {}

  lemma MontResult(r: nat, d: nat, product: int, nv: nat, p: nat)
    requires nv > 0 && d < 2 * nv && r == (if d >= nv then d - nv else d)
    requires Cong(d * p, product, nv)
    ensures r < nv && Cong(r * p, product, nv)
  {
    if d >= nv {
      var pi: int := p;
      MulDist(d, nv, p);
      assert (-pi) * nv == -(nv * p);
      CongIntro(r * p, d * p, -pi, nv);
    }
  }

  /** Copy d to a, and replace it by d - N when d >= N, without branching on that. */
  method FinalSubtraction(a: Mpi, n: Mpi, t: Mpi)
    requires 0 < n.p.Length <= a.p.Length && t.p.Length >= 2 * (n.p.Length + 1)
    requires t.p != a.p && t.p != n.p && a.p != n.p
    requires Nat(t.p[n.p.Length..]) < 2 * n.Mag()
    modifies a.p, t.p
    ensures Nat(a.p[..n.p.Length]) ==
      var d := old(Nat(t.p[n.p.Length..])); if d >= n.Mag() then d - n.Mag() else d
    ensures a.p[n.p.Length..] == old(a.p[n.p.Length..])
  {
    hide Nat, BPow, Pow2, AddW, SubW;
    WordFacts();
    var nn := n.p.Length;
    ghost var d := t.p[nn..];
    NatBound(n.p[..]);
    forall k | 0 <= k < nn { a.p[k] := t.p[nn + k]; }
    assert a.p[..nn] == d[..nn];
    t.p[2 * nn] := AddW(t.p[2 * nn], 1);
    assert t.p[nn..nn + nn] == d[..nn] && n.p[..nn] == n.p[..];
    var c := SubHlp(nn, t.p, nn, t.p, nn, n.p);
    ghost var low := Nat(t.p[nn..nn + nn]);
    NatBound(t.p[nn..nn + nn]);
    FinalFlag(d, nn, n.Mag(), low, c);
    t.p[2 * nn] := SubW(t.p[2 * nn], c);
    ghost var w := t.p[nn..nn + nn];
    CondAssign(nn, a.p, t.p, nn, t.p[2 * nn]);
  }
}
