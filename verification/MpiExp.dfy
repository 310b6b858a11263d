/** Sliding-window modular exponentiation (HAC 14.85) in Montgomery form, with the
    accumulator kept in the table and every operand fetched by a full scan of it. */
module MpiExp {
  import opened Arith
  import opened Words
  import opened ConstantTime
  import opened Divisors
  import opened Limbs
  import opened Kernels
  import opened Mpis
  import opened MpiArith
  import opened MpiBits
  import opened MpiShift
  import opened MpiMod
  import opened MpiDiv
  import opened Montgomery

  const MaxBits: nat := 8192

  type WindowBits = x: nat | 1 <= x <= 6 witness 2
  /** MBEDTLS_MPI_WINDOW_SIZE: any value the configuration admits. */
  const MaxWindow: WindowBits

  // ---------- the result ----------

  /** What exp_mod leaves in its output. */
  function ModExp(a: int, e: nat, n: int): int
    requires n > 0
  {
    var m := Pow(Abs(a), e) % n;
    if a < 0 && e % 2 == 1 then n - m else m
  }

  lemma {:induction false} PowSign(a: int, e: nat)
    ensures Pow(-a, e) == if e % 2 == 0 then Pow(a, e) else -Pow(a, e)
  {
    if e > 0 {
      PowSign(a, e - 1);
      var p := Pow(a, e - 1);
      assert (-a) * p == -(a * p) && (-a) * (-p) == a * p;
    }
  }

  /** Always congruent to the power; the reduced power exactly when the base is not
      negative, the exponent is even, or the modulus does not divide the power. */
  lemma ModExpCorrect(a: int, e: nat, n: int)
    requires n > 0
    ensures Cong(ModExp(a, e, n), Pow(a, e), n) && 0 <= ModExp(a, e, n) <= n
    ensures ModExp(a, e, n) == Pow(a, e) % n <==> (a >= 0 || e % 2 == 0 || Pow(a, e) % n != 0)
  {
    hide Pow, Cong;
    PowSign(a, e);
    var p := Pow(Abs(a), e);
    CongMod(p, n);
    DivModFacts(p, n);
    if a < 0 && e % 2 == 1 {
      CongNeg(p % n, p, n);
      CongIntro(n - p % n, -(p % n), 1, n);
      CongTrans(n - p % n, -(p % n), -p, n);
      CongIs(n - p % n, -p, n);
      if p % n == 0 {
        DivModUnique(-p, -(p / n), 0, n);
      } else {
        ModSmall(n - p % n, n);
      }
    }
  }

  /** The condition with a bounded power, which can be checked before the call; it always holds
      when base and modulus are coprime. */
  lemma ModExpReducedIff(a: int, e: nat, n: nat)
    requires n > 0
    ensures ModExp(a, e, n) == Pow(a, e) % n
      <==> (a >= 0 || e % 2 == 0 || Pow(Abs(a), if e < BitLen(n) then e else BitLen(n)) % n != 0)
    ensures n > 1 && Gcd(n, Abs(a)) == 1 ==> ModExp(a, e, n) == Pow(a, e) % n
  {
    hide Pow, Cong, Gcd, Divides, ModExp, BitLen;
    var k := if e < BitLen(n) then e else BitLen(n);
    ModExpCorrect(a, e, n);
    BitLenBounds(n);
    BoundedPower(n, Abs(a), BitLen(n), e);
    DividesMod(n, Pow(Abs(a), e));
    DividesMod(n, Pow(Abs(a), k));
    DividesMod(n, Pow(a, e));
    PowSign(a, e);
    DividesAbs(n, Pow(a, e));
    DividesAbs(n, Pow(Abs(a), e));
  }

  /** An odd power of a negative multiple of the modulus comes out as the modulus itself. */
  lemma ModExpNotReduced()
    ensures ModExp(-3, 1, 3) == 3 && Pow(-3, 1) % 3 == 0
  {
    assert Pow(3, 1) == 3 && Pow(-3, 1) == -3;
  }

  // ---------- Montgomery form ----------

  /** R is invertible modulo an odd number. */
  lemma RadixInverse(k: nat, n: int) returns (inv: int)
    requires n > 0 && n % 2 == 1
    ensures Cong(BPow(k) * inv, 1, n)
  {
    hide BPow, Pow2, Cong, Pow;
    BPowIsPow2(k);
    var h := (n + 1) / 2;
    Pow2Pow(1, biL * k);
    Pow2Values();
    inv := Pow(h, biL * k);
    PowProd(2, h, biL * k);
    assert 2 * h == 1 + 1 * n;
    CongIntro(2 * h, 1, 1, n);
    CongPow(2 * h, 1, biL * k, n);
    PowOfOne(biL * k);
  }

  lemma PowZero(a: int)
    ensures Pow(a, 0) == 1
  {}

  lemma {:induction false} PowOfOne(k: nat)
    ensures Pow(1, k) == 1
  {
    if k > 0 { PowOfOne(k - 1); }
  }

  /** The modulus, its Montgomery constant and the scratch buffer fit together. */
  ghost predicate Ready(n: Mpi, mm: Limb, t: Mpi)
    reads n, n.p, t
  {
    n.Valid() && n.s == 1 && n.p.Length > 0 && n.p[0] % 2 == 1
    && Cong(n.p[0] * mm, -1, B) && t.p != n.p && t.p.Length >= 2 * (n.p.Length + 1)
  }

  lemma ReadyFacts(n: Mpi, mm: Limb, t: Mpi)
    requires Ready(n, mm, t)
    ensures n.Mag() % 2 == 1 && n.Mag() > 0 && n.Mag() == Nat(n.p[..n.p.Length])
    ensures n.Mag() < BPow(n.p.Length)
  {
    hide Nat, BPow;
    assert n.p[..n.p.Length] == n.p[..];
    NatParity(n.p[..]);
    NatBound(n.p[..]);
  }

  /** A number below BPow(k) is in the low k limbs. */
  lemma LowLimbs(s: seq<Limb>, k: nat)
    requires Nat(s) < BPow(k)
    ensures Nat(s[..if |s| < k then |s| else k]) == Nat(s)
    ensures k <= |s| ==> Nat(s[k..]) == 0
  {
    hide Nat, BPow;
    if |s| < k {
      assert s[..|s|] == s;
    } else {
      NatFitsTail(s, k);
      NatZeros(s[k..]);
    }
  }

  /** a := c modulo N for a and b whose product is c * R; both are whole reduced numbers. */
  method MulMod(a: Mpi, b: Mpi, n: Mpi, mm: Limb, t: Mpi, ghost c: int)
    requires Ready(n, mm, t) && a.p != t.p && b.p != t.p && a.p != n.p
    requires a.p.Length >= n.p.Length && b.p.Length > 0
    requires a.Mag() < n.Mag() && b.Mag() <= n.Mag()
    requires Cong(a.Mag() * b.Mag(), c * BPow(n.p.Length), n.Mag())
    modifies a.p, t.p
    ensures a.Mag() < n.Mag() && Cong(a.Mag(), c, n.Mag())
  {
    hide Nat, BPow, Cong, Pow2;
    var nn := n.p.Length;
    ReadyFacts(n, mm, t);
    LowLimbs(a.p[..], nn);
    LowLimbs(b.p[..], nn);
    ghost var inv := RadixInverse(nn, n.Mag());
    ghost var product, nv := a.Mag() * b.Mag(), n.Mag();
    assert a.p[..][..nn] == a.p[..nn];
    assert Operand(b, n) == b.Mag() by {
      assert b.p[..][..if b.p.Length < nn then b.p.Length else nn]
        == b.p[..if b.p.Length < nn then b.p.Length else nn];
    }
    assert a.p[..][nn..] == a.p[nn..];
    MontMul(a, b, n, mm, t);
    assert a.p[..][..nn] == a.p[..nn] && a.p[..][nn..] == a.p[nn..];
    NatSplit(a.p[..], nn);
    CongTrans(a.Mag() * BPow(nn), product, c * BPow(nn), nv);
    CongCancel(a.Mag(), c, BPow(nn), inv, nv);
  }

  /** x holds v in Montgomery form: v * R mod N, fully reduced. */
  ghost predicate Form(x: Mpi, n: Mpi, v: int)
    reads x, x.p, n, n.p
  {
    n.Mag() > 0 && x.p.Length >= n.p.Length && x.Mag() < n.Mag()
    && Cong(x.Mag(), v * BPow(n.p.Length), n.Mag())
  }

  lemma FormProduct(x: int, y: int, u: int, v: int, r: int, n: int)
    requires n > 0 && Cong(x, u * r, n) && Cong(y, v * r, n)
    ensures Cong(x * y, u * v * r * r, n)
  {
    CongMul(x, u * r, y, v * r, n);
    MulSwap(u, r, v, r);
    MulAssoc(u * v, r, r);
  }

  /** Montgomery multiplication multiplies the represented numbers. */
  method MulForm(a: Mpi, b: Mpi, n: Mpi, mm: Limb, t: Mpi, ghost u: int, ghost v: int)
    requires Ready(n, mm, t) && a.p != t.p && b.p != t.p && a.p != n.p
    requires Form(a, n, u) && Form(b, n, v)
    modifies a.p, t.p
    ensures Form(a, n, u * v)
  {
    hide Nat, BPow, Cong, Pow2;
    FormProduct(a.Mag(), b.Mag(), u, v, BPow(n.p.Length), n.Mag());
    MulMod(a, b, n, mm, t, u * v * BPow(n.p.Length));
  }

  /** Montgomery reduction: multiplication by a one-limb 1. */
  method MontRed(a: Mpi, n: Mpi, mm: Limb, t: Mpi, ghost c: int)
    requires Ready(n, mm, t) && a.p != t.p && a.p != n.p && a.p.Length >= n.p.Length
    requires a.Mag() < n.Mag() && Cong(a.Mag(), c * BPow(n.p.Length), n.Mag())
    modifies a.p, t.p
    ensures a.Mag() < n.Mag() && Cong(a.Mag(), c, n.Mag())
  {
    hide Nat, BPow, Cong, Pow2;
    WordFacts();
    var u := OneLimb(1);
    MulMod(a, u, n, mm, t, c);
  }

  lemma RadixSquare(n: nat)
    ensures n * 2 * biL >= 0 && Pow2(n * 2 * biL) == BPow(n) * BPow(n) > 0
  {
    hide BPow, Pow2;
    BPowIsPow2(n);
    Pow2Add(biL * n, biL * n);
  }

  /** R * R mod N, in at least as many limbs as N. */
  method GetMontR2(x: Mpi, n: Mpi) returns (ret: Status)
    requires x.Valid() && n.Valid() && n.Val() > 0 && x != n && x.p != n.p
    modifies x, x.p
    ensures x.p == old(x.p) || fresh(x.p)
    ensures ret.Success? && SquaredRadix(x, n)
  {
    hide Nat, BPow, Pow2, Cong;
    RadixSquare(n.p.Length);
    var count := n.p.Length * 2 * biL;
    Lset(x, 1) by { WordFacts(); }
    ShiftL(x, count);
    assert x.Val() == Pow2(count);
    CongMod(Pow2(count), n.Val());
    DivModFacts(Pow2(count), n.Val());
    ret := ModMpi(x, x, n);
    Shrink(x, n.p.Length);
  }

  ghost predicate SquaredRadix(x: Mpi, n: Mpi)
    reads x, x.p, n, n.p
  {
    x.s == 1 && n.Mag() > 0 && x.p.Length >= n.p.Length && x.Mag() < n.Mag()
    && Cong(x.Mag(), BPow(n.p.Length) * BPow(n.p.Length), n.Mag())
  }

  // ---------- table lookup without a data-dependent address ----------

  /** Clear the limbs from n on if assign is 1. */
  method MaskTop(p: array<Limb>, n: nat, assign: nat)
    requires n <= p.Length && assign <= 1
    modifies p
    ensures forall k :: 0 <= k < n ==> p[k] == old(p[k])
    ensures forall k :: n <= k < p.Length ==> p[k] == if assign == 1 then 0 else old(p[k])
  {
    WordFacts();
    var limbMask := MpiUintMask(assign);
    ghost var was := p[..];
    var i := n;
    while i < p.Length
      invariant n <= i <= p.Length
      invariant forall k :: 0 <= k < n || i <= k < p.Length ==> p[k] == was[k]
      invariant forall k :: n <= k < i ==> p[k] == if assign == 1 then 0 else was[k]
    {
      AndOnes(p[i]);
      OrZero(p[i]);
      p[i] := BitAnd(p[i], NotW(limbMask));
      i := i + 1;
    }
  }

  lemma TopCleared(s: seq<Limb>, y: seq<Limb>)
    requires |y| <= |s| && s[..|y|] == y && forall k :: |y| <= k < |s| ==> s[k] == 0
    ensures Nat(s) == Nat(y)
  {
    hide Nat;
    NatZeroTail(s, |y|);
  }

  /** x := y if assign is 1, keep x if it is 0; the buffers are walked either way. */
  method SafeCondAssign(x: Mpi, y: Mpi, assign: nat)
    requires x != y && x.p != y.p && assign <= 1
    modifies x, x.p
    ensures x.p == old(x.p) || fresh(x.p)
    ensures x.p.Length >= old(x.p.Length) && x.p.Length >= y.p.Length
    ensures x.s == if assign == 1 then y.s else old(x.s)
    ensures x.Mag() == if assign == 1 then y.Mag() else old(x.Mag())
  {
    hide Nat, BPow, Pow2;
    Grow(x, y.p.Length);
    x.s := if assign == 1 then y.s else x.s;
    ghost var was := x.p[..];
    var n := y.p.Length;
    assert y.p[0..0 + n] == y.p[..];
    CondAssign(y.p.Length, x.p, y.p, 0, assign);
    ghost var low := x.p[..n];
    MaskTop(x.p, n, assign);
    assert x.p[..n] == low;
    if assign == 1 {
      TopCleared(x.p[..], y.p[..]);
    } else {
      assert x.p[..] == was;
    }
  }

  /** r := w[idx], reading all of w[..size]. */
  method Select(r: Mpi, w: seq<Mpi>, size: nat, idx: nat)
    requires idx < size <= |w| && forall i :: 0 <= i < size ==> w[i] != r && w[i].p != r.p
    modifies r, r.p
    ensures r.p == old(r.p) || fresh(r.p)
    ensures r.Mag() == w[idx].Mag() && r.p.Length >= w[idx].p.Length
  {
    hide Nat, BPow;
    for i := 0 to size
      invariant r.p == old(r.p) || fresh(r.p)
      invariant idx < i ==> r.Mag() == w[idx].Mag() && r.p.Length >= w[idx].p.Length
    {
      SafeCondAssign(r, w[i], Bit(i == idx));
    }
  }

  // ---------- the working set ----------

  /** The variables of exp_mod: the table w with the accumulator in entry 0, the select
      buffer, the modulus with its Montgomery constant, scratch space and window size. */
  datatype Work = Work(w: seq<Mpi>, ww: Mpi, n: Mpi, mm: Limb, t: Mpi, wsize: nat)
  {
    function Size(): nat { Pow2(wsize) }
  }

  /** No two of the working variables share an object or a buffer. */
  ghost predicate Separate(k: Work)
    reads k.w, k.ww, k.n, k.t
  {
    (forall i, j :: 0 <= i < j < |k.w| ==> k.w[i] != k.w[j] && k.w[i].p != k.w[j].p)
    && (forall i :: 0 <= i < |k.w| ==> k.w[i] !in {k.ww, k.n, k.t} && k.w[i].p !in {k.ww.p, k.n.p, k.t.p})
    && k.ww !in {k.n, k.t} && k.ww.p !in {k.n.p, k.t.p} && k.n != k.t && k.n.p != k.t.p
  }

  /** The entries in use hold the powers of av: entry 1 and the upper half. */
  ghost predicate Table(k: Work, av: nat)
    reads k.w, set x | x in k.w :: x.p
    reads k.n, k.n.p
  {
    2 <= k.Size() <= |k.w|
    && forall i :: 1 <= i < k.Size() && (i == 1 || i >= k.Size() / 2) ==> Form(k.w[i], k.n, Pow(av, i))
  }

  ghost predicate Tables(k: Work, av: nat)
    reads k.w, set x | x in k.w :: x.p
    reads k.n, k.n.p, k.t, k.ww
  {
    Separate(k) && Ready(k.n, k.mm, k.t) && k.wsize >= 1 && Table(k, av)
  }

  /** The accumulator holds av to the power e. */
  ghost predicate Acc(k: Work, av: nat, e: nat)
    reads k.w, set x | x in k.w :: x.p
    reads k.n, k.n.p
  {
    |k.w| > 0 && Form(k.w[0], k.n, Pow(av, e))
  }

  /** Multiply the accumulator by table entry idx; entry 0 squares it. */
  method Times(k: Work, idx: nat, ghost av: nat, ghost e: nat)
    requires Tables(k, av) && Acc(k, av, e)
    requires idx < k.Size() && (idx <= 1 || idx >= k.Size() / 2)
    modifies k.ww, k.ww.p, k.w[0].p, k.t.p
    ensures k.ww.p == old(k.ww.p) || fresh(k.ww.p)
    ensures Tables(k, av) && Acc(k, av, e + if idx == 0 then e else idx)
  {
    hide Nat, BPow, Cong, Pow2, Pow;
    ghost var v := if idx == 0 then e else idx;
    Select(k.ww, k.w, k.Size(), idx);
    assert Form(k.ww, k.n, Pow(av, v));
    PowAdd(av, e, v);
    MulForm(k.w[0], k.ww, k.n, k.mm, k.t, Pow(av, e), Pow(av, v));
  }

  /** Square the accumulator count times. */
  method Squares(k: Work, count: nat, ghost av: nat, ghost e: nat)
    requires Tables(k, av) && Acc(k, av, e)
    modifies k.ww, k.ww.p, k.w[0].p, k.t.p
    ensures k.ww.p == old(k.ww.p) || fresh(k.ww.p)
    ensures Tables(k, av) && Acc(k, av, e * Pow2(count))
  {
    hide Nat, BPow, Cong, Pow, Form;
    for i := 0 to count
      invariant k.ww.p == old(k.ww.p) || fresh(k.ww.p)
      invariant Tables(k, av) && Acc(k, av, e * Pow2(i))
    {
      assert e * Pow2(i) + e * Pow2(i) == e * Pow2(i + 1);
      Times(k, 0, av, e * Pow2(i));
    }
  }

  // ---------- the window ----------

  /** c is the exponent prefix read so far, e the exponent in the accumulator, x the nbits
      bits held back, left-aligned in win; state 2 says that some are held back. */
  ghost predicate Window(wsize: nat, state: nat, nbits: nat, win: nat, c: nat, e: nat, x: nat)
  {
    nbits < wsize && state <= 2 && (state == 2 <==> nbits > 0) && (state == 0 ==> c == 0)
    && c == e * Pow2(nbits) + x && x < Pow2(nbits) && (nbits > 0 ==> Pow2(nbits) <= 2 * x)
    && win == x * Pow2(wsize - nbits)
  }

  lemma WindowGrows(wsize: nat, nbits: nat, win: nat, e: nat, x: nat, ei: nat)
    requires nbits < wsize && ei <= 1 && (nbits == 0 ==> ei == 1)
    requires x < Pow2(nbits) && (nbits > 0 ==> Pow2(nbits) <= 2 * x) && win == x * Pow2(wsize - nbits)
    ensures BitOr(win, ei * Pow2(wsize - nbits - 1)) == (2 * x + ei) * Pow2(wsize - nbits - 1)
    ensures Pow2(nbits + 1) <= 2 * (2 * x + ei) < 2 * Pow2(nbits + 1)
    ensures 2 * (e * Pow2(nbits) + x) + ei == e * Pow2(nbits + 1) + (2 * x + ei)
  {
    hide Pow2, BitOr;
    Pow2Values();
    var s := wsize - nbits - 1;
    Pow2Add(s, 1);
    Pow2Add(nbits, 1);
    assert win == x * (Pow2(s) * 2) == (x * Pow2(s)) * 2;
    DivModUnique(x * Pow2(s + 1), x, 0, Pow2(s + 1));
    OrIsAdd(win, ei * Pow2(s), s + 1);
    MulDist(2 * x, ei, Pow2(s));
    assert e * (Pow2(nbits) * 2) == 2 * (e * Pow2(nbits));
  }

  /** What the body of the main loop does with one exponent bit. */
  method WindowBit(k: Work, state: nat, nbits: nat, win: nat, ei: nat,
                   ghost av: nat, ghost c: nat, ghost e: nat, ghost x: nat)
    returns (state': nat, nbits': nat, win': nat, ghost e': nat, ghost x': nat)
    requires Tables(k, av) && Acc(k, av, e) && Window(k.wsize, state, nbits, win, c, e, x) && ei <= 1
    modifies k.ww, k.ww.p, k.w[0].p, k.t.p
    ensures k.ww.p == old(k.ww.p) || fresh(k.ww.p)
    ensures Tables(k, av) && Acc(k, av, e') && Window(k.wsize, state', nbits', win', 2 * c + ei, e', x')
  {
    hide Nat, BPow, Cong, Pow, Form, Pow2, BitOr, Tables, Acc;
    state', nbits', win', e', x' := state, nbits, win, e, x;
    Pow2Values();
    if ei == 0 && state == 0 { return; }
    if ei == 0 && state == 1 {
      Times(k, 0, av, e) by { TableSize(k, av); }
      e' := 2 * e;
      return;
    }
    state' := 2;
    WindowGrows(k.wsize, nbits, win, e, x, ei);
    nbits' := nbits + 1;
    win' := BitOr(win, ei * Pow2(k.wsize - nbits'));
    x' := 2 * x + ei;
    if nbits' == k.wsize {
      Squares(k, k.wsize, av, e);
      FullWindow(k, av, x');
      Times(k, win', av, e * Pow2(k.wsize));
      e' := e * Pow2(k.wsize) + x';
      state', nbits', win', x' := state' - 1, 0, 0, 0;
    }
  }

  lemma TableSize(k: Work, av: nat)
    requires Tables(k, av)
    ensures k.wsize > 0 && 2 <= k.Size() <= |k.w| && k.w[0] != k.ww && k.t != k.ww && k.w[0] != k.t
  {}

  lemma FullWindow(k: Work, av: nat, x: nat)
    requires Tables(k, av) && Pow2(k.wsize) <= 2 * x < 2 * Pow2(k.wsize)
    ensures x < k.Size() && x >= k.Size() / 2 && x > 0 && 2 <= k.Size() <= |k.w|
    ensures x * Pow2(0) == x
  {
    hide Pow2;
    Pow2Values();
  }

  // ---------- the main loop ----------

  lemma PrefixStep(total: nat, pos: nat)
    ensures total / Pow2(pos) == 2 * (total / Pow2(pos + 1)) + total / Pow2(pos) % 2
  {
    hide Pow2;
    Pow2Values();
    Pow2Add(pos, 1);
    DivDiv(total, Pow2(pos), 2);
    DivModFacts(total / Pow2(pos), 2);
  }

  lemma NextBit(s: seq<Limb>, i: nat, j: nat)
    requires i < |s| && j < biL
    ensures i * biL >= 0
    ensures Nat(s) / Pow2(i * biL + j) == 2 * (Nat(s) / Pow2(i * biL + j + 1)) + s[i] / Pow2(j) % 2
  {
    hide Nat, Pow2;
    BitAt(s, i, j);
    PrefixStep(Nat(s), i * biL + j);
  }

  /** Consume the exponent from its top limb down. The accumulator ends with everything but
      the bits still held back in the window. */
  method Scan(k: Work, ep: array<Limb>, ghost av: nat)
    returns (nbits: nat, win: nat, ghost e: nat, ghost x: nat)
    requires Tables(k, av) && Acc(k, av, 0)
    requires ep !in {k.ww.p, k.t.p} && forall i :: 0 <= i < |k.w| ==> ep != k.w[i].p
    modifies k.ww, k.ww.p, k.w[0].p, k.t.p
    ensures k.ww.p == old(k.ww.p) || fresh(k.ww.p)
    ensures Tables(k, av) && Acc(k, av, e)
    ensures exists state :: Window(k.wsize, state, nbits, win, Nat(ep[..]), e, x)
    ensures Nat(ep[..]) == e * Pow2(nbits) + x
  {
    hide Nat, BPow, Cong, Pow, Form, Pow2, Tables, Acc, Window;
    WordFacts();
    var nblimbs: nat, bufsize: nat := ep.Length, 0;
    var state: nat := 0;
    nbits, win, e, x := 0, 0, 0, 0;
    ghost var total := Nat(ep[..]);
    ghost var c: nat := 0;
    TableSize(k, av);
    StartOfScan(ep[..], k.wsize);
    while bufsize != 0 || nblimbs != 0
      invariant k.ww.p == old(k.ww.p) || fresh(k.ww.p)
      invariant nblimbs <= ep.Length && bufsize < biL && (bufsize > 0 ==> nblimbs < ep.Length)
      invariant nblimbs * biL + bufsize >= 0 && c == total / Pow2(nblimbs * biL + bufsize)
      invariant Tables(k, av) && Acc(k, av, e) && Window(k.wsize, state, nbits, win, c, e, x)
      invariant ep[..] == old(ep[..])
      decreases nblimbs, bufsize
    {
      if bufsize == 0 {
        nblimbs := nblimbs - 1;
        bufsize := biL;
      }
      bufsize := bufsize - 1;
      NextBit(ep[..], nblimbs, bufsize);
      var ei := ShrW(ep[nblimbs], bufsize) % 2;
      state, nbits, win, e, x := WindowBit(k, state, nbits, win, ei, av, c, e, x);
      c := 2 * c + ei;
    }
    Pow2Values();
    WindowSum(k.wsize, state, nbits, win, c, e, x);
  }

  lemma WindowSum(wsize: nat, state: nat, nbits: nat, win: nat, c: nat, e: nat, x: nat)
    requires Window(wsize, state, nbits, win, c, e, x)
    ensures c == e * Pow2(nbits) + x
  {}

  lemma StartOfScan(s: seq<Limb>, wsize: nat)
    ensures |s| * biL >= 0 && Nat(s) / Pow2(|s| * biL) == 0
    ensures wsize > 0 ==> Window(wsize, 0, 0, 0, 0, 0, 0)
  {
    hide Nat, Pow2, BPow;
    Pow2Values();
    NatBound(s);
    BPowIsPow2(|s|);
    ModSmall(Nat(s), Pow2(biL * |s|));
  }

  /** The exponent when i of the nbits bits held back have been consumed. */
  ghost function Held(e: nat, x: nat, nbits: nat, i: nat): (f: nat)
    requires i <= nbits
  {
    HeldIsNat(e, x, Pow2(i), Pow2(nbits - i));
    e * Pow2(i) + x / Pow2(nbits - i)
  }

  lemma HeldIsNat(e: nat, x: nat, p: nat, q: nat)
    requires q > 0
    ensures e * p + x / q >= 0
  {
    MulMono(0, e, p);
  }

  lemma HeldEnds(e: nat, x: nat, nbits: nat)
    requires x < Pow2(nbits)
    ensures Held(e, x, nbits, 0) == e && Held(e, x, nbits, nbits) == e * Pow2(nbits) + x
  {
    hide Pow2;
    Pow2Values();
    ModSmall(x, Pow2(nbits));
  }

  lemma HeldStep(e: nat, x: nat, nbits: nat, i: nat)
    requires i < nbits
    ensures 2 * Held(e, x, nbits, i) + x / Pow2(nbits - i - 1) % 2 == Held(e, x, nbits, i + 1)
  {
    hide Pow2;
    Pow2Values();
    Pow2Add(i, 1);
    assert e * (Pow2(i) * 2) == 2 * (e * Pow2(i));
    PrefixStep(x, nbits - i - 1);
  }

  lemma TailBit(x: nat, win: nat, wsize: nat, nbits: nat, i: nat, e: nat)
    requires i < nbits < wsize && win == x * Pow2(wsize - nbits + i)
    ensures 2 * win == x * Pow2(wsize - nbits + i + 1)
    ensures (BitAnd(2 * win, Pow2(wsize)) != 0) == (x / Pow2(nbits - i - 1) % 2 == 1)
    ensures 2 * Held(e, x, nbits, i) + x / Pow2(nbits - i - 1) % 2 == Held(e, x, nbits, i + 1)
  {
    hide Pow2, BitAnd, Held;
    HeldStep(e, x, nbits, i);
    Pow2Values();
    Pow2Add(wsize - nbits + i, 1);
    assert x * (Pow2(wsize - nbits + i) * 2) == 2 * win;
    // dropping wsize bits of 2 * win leaves x without its low nbits - i - 1 bits
    var u := wsize - nbits + i + 1;
    Pow2Add(u, nbits - i - 1);
    DivModUnique(x * Pow2(u), x, 0, Pow2(u));
    DivDiv(x * Pow2(u), Pow2(u), Pow2(nbits - i - 1));
    AndPow2(2 * win, wsize);
  }

  /** The bits left in an incomplete window, one at a time. */
  method Tail(k: Work, nbits: nat, win0: nat, ghost av: nat, ghost e: nat, ghost x: nat)
    requires Tables(k, av) && Acc(k, av, e)
    requires exists state, c :: Window(k.wsize, state, nbits, win0, c, e, x)
    modifies k.ww, k.ww.p, k.w[0].p, k.t.p
    ensures k.ww.p == old(k.ww.p) || fresh(k.ww.p)
    ensures Tables(k, av) && Acc(k, av, e * Pow2(nbits) + x)
  {
    hide Nat, BPow, Cong, Pow, Form, Pow2, BitAnd, Tables, Acc, Held;
    TableSize(k, av);
    HeldEnds(e, x, nbits);
    var win: nat := win0;
    for i := 0 to nbits
      invariant k.ww.p == old(k.ww.p) || fresh(k.ww.p)
      invariant win == x * Pow2(k.wsize - nbits + i)
      invariant Tables(k, av) && Acc(k, av, Held(e, x, nbits, i))
    {
      ghost var f := Held(e, x, nbits, i);
      TailBit(x, win, k.wsize, nbits, i, e);
      Times(k, 0, av, f);
      win := 2 * win;
      if BitAnd(win, Pow2(k.wsize)) != 0 {
        Times(k, 1, av, 2 * f);
      }
    }
  }

  // ---------- the table ----------

  /** Make entry i a copy of entry src. */
  method CopyEntry(k: Work, i: nat, src: nat)
    requires Separate(k) && Ready(k.n, k.mm, k.t) && 1 <= src < i < |k.w|
    requires k.w[src].p.Length > 0 && k.w[i].Valid()
    modifies k.w[i], k.w[i].p
    ensures k.w[i].p == old(k.w[i].p) || fresh(k.w[i].p)
    ensures Separate(k) && k.w[i].p.Length > k.n.p.Length
    ensures k.w[i].Mag() == k.w[src].Mag()
  {
    hide Nat, BPow, Cong;
    Grow(k.w[i], k.n.p.Length + 1);
    Copy(k.w[i], k.w[src]);
  }

  /** Entry 1 and the entries from j up to i hold their powers. */
  ghost predicate Filled(k: Work, j: nat, i: nat, av: nat)
    requires 1 < |k.w| && j <= i <= |k.w|
    reads k.w, set x | x in k.w :: x.p
    reads k.n, k.n.p
  {
    Form(k.w[1], k.n, av) && forall m :: j <= m < i ==> Form(k.w[m], k.n, Pow(av, m))
  }

  /** Entry i becomes entry i - 1 times entry 1. */
  method NextPower(k: Work, j: nat, i: nat, ghost av: nat)
    requires Separate(k) && Ready(k.n, k.mm, k.t) && 2 <= j < i < |k.w| && k.w[i].Valid()
    requires Filled(k, j, i, av)
    modifies k.w[i], k.w[i].p, k.t.p
    ensures k.w[i].p == old(k.w[i].p) || fresh(k.w[i].p)
    ensures Separate(k) && Filled(k, j, i + 1, av)
  {
    hide Nat, BPow, Cong, Pow2, Pow;
    CopyEntry(k, i, i - 1);
    assert Form(k.w[i], k.n, Pow(av, i - 1));
    PowAdd(av, i - 1, 1);
    PowOne(av);
    MulForm(k.w[i], k.w[1], k.n, k.mm, k.t, Pow(av, i - 1), av);
  }

  /** Entry j becomes entry 1 to the power j = 2^(wsize - 1). */
  method HighPower(k: Work, j: nat, ghost av: nat)
    requires Separate(k) && Ready(k.n, k.mm, k.t) && 2 <= j < |k.w| && k.w[j].Valid()
    requires k.wsize > 0 && j == Pow2(k.wsize - 1) && Form(k.w[1], k.n, av)
    modifies k.w[j], k.w[j].p, k.t.p
    ensures k.w[j].p == old(k.w[j].p) || fresh(k.w[j].p)
    ensures Separate(k) && Form(k.w[j], k.n, Pow(av, j))
  {
    hide Nat, BPow, Cong, Pow2, Pow;
    CopyEntry(k, j, 1);
    PowOne(av);
    Pow2Values();
    for i := 0 to k.wsize - 1
      modifies k.w[j].p, k.t.p
      invariant Form(k.w[j], k.n, Pow(av, Pow2(i)))
    {
      Pow2Add(i, 1);
      PowAdd(av, Pow2(i), Pow2(i));
      MulForm(k.w[j], k.w[j], k.n, k.mm, k.t, Pow(av, Pow2(i)), Pow(av, Pow2(i)));
    }
  }

  /** The powers above entry j. */
  method UpperPowers(k: Work, j: nat, ghost av: nat)
    requires Separate(k) && Ready(k.n, k.mm, k.t) && 2 <= j < k.Size() <= |k.w|
    requires Filled(k, j, j + 1, av) && forall i :: j < i < |k.w| ==> k.w[i].Valid()
    modifies k.w[2..], set x | x in k.w[2..] :: x.p
    modifies k.t.p
    ensures Separate(k) && Ready(k.n, k.mm, k.t) && Filled(k, j, k.Size(), av)
    ensures forall i :: 2 <= i < |k.w| ==> k.w[i].p == old(k.w[i].p) || fresh(k.w[i].p)
  {
    hide Nat, BPow, Cong, Pow, Pow2, Ready, Form, Filled;
    var i := j + 1;
    while i < k.Size()
      invariant j < i <= k.Size()
      invariant forall m :: 2 <= m < |k.w| ==> k.w[m].p == old(k.w[m].p) || fresh(k.w[m].p)
      invariant forall m :: i <= m < |k.w| ==> k.w[m].Valid()
      invariant Separate(k) && Ready(k.n, k.mm, k.t) && Filled(k, j, i, av)
    {
      NextPower(k, j, i, av);
      i := i + 1;
    }
  }

  /** W[i] = W[1]^i for the entries with the top window bit set. */
  method FillTable(k: Work, ghost av: nat)
    requires Separate(k) && Ready(k.n, k.mm, k.t) && k.wsize > 1 && k.Size() <= |k.w|
    requires Form(k.w[1], k.n, av) && forall i :: 2 <= i < |k.w| ==> k.w[i].Valid()
    modifies k.w[2..], set x | x in k.w[2..] :: x.p
    modifies k.t.p
    ensures Tables(k, av)
    ensures forall i :: 2 <= i < |k.w| ==> k.w[i].p == old(k.w[i].p) || fresh(k.w[i].p)
  {
    hide Nat, BPow, Cong, Pow, Pow2, Ready, Form;
    HalfOfTable(k.wsize);
    var j := k.Size() / 2;
    HighPower(k, j, av);
    UpperPowers(k, j, av);
    PowOne(av);
  }

  lemma HalfOfTable(wsize: nat)
    requires wsize > 1
    ensures 2 <= Pow2(wsize) / 2 == Pow2(wsize - 1) < Pow2(wsize)
  {
    hide Pow2;
    Pow2Values();
    Pow2Add(wsize - 1, 1);
    Pow2Add(wsize - 2, 1);
  }

  // ---------- exp_mod ----------

  function WindowSize(bits: nat): (r: WindowBits)
    ensures r <= MaxWindow
  {
    var w := if bits > 671 then 6 else if bits > 239 then 5 else if bits > 79 then 4
             else if bits > 23 then 3 else 1;
    if w > MaxWindow then MaxWindow else w
  }

  /** The empty table. (The source zeroes the entries; they are written before use.) */
  method NewTable(count: nat) returns (w: seq<Mpi>)
    ensures |w| == count
    ensures forall i :: 0 <= i < count ==> fresh(w[i]) && fresh(w[i].p) && w[i].Valid()
    ensures forall i, j :: 0 <= i < j < count ==> w[i] != w[j] && w[i].p != w[j].p
  {
    w := [];
    for i := 0 to count
      invariant |w| == i
      invariant forall j :: 0 <= j < i ==> fresh(w[j]) && fresh(w[j].p) && w[j].Valid()
      invariant forall l, j :: 0 <= l < j < i ==> w[l] != w[j] && w[l].p != w[j].p
    {
      var x := new Mpi();
      w := w + [x];
    }
  }

  /** x = a mod N for a nonnegative a, with a limb to spare. */
  method Reduce(x: Mpi, a: Mpi, n: Mpi)
    requires n.Valid() && n.s == 1 && n.Mag() > 0 && x.Valid() && a.Valid() && a.s == 1
    requires x.p.Length > n.p.Length && x !in {a, n} && x.p !in {a.p, n.p}
    modifies x, x.p
    ensures x.p == old(x.p) || fresh(x.p)
    ensures x.p.Length > n.p.Length && x.Mag() < n.Mag() && Cong(x.Mag(), old(a.Mag()), n.Mag())
  {
    hide Nat, BPow, Cong, Pow2;
    ghost var av, nv := a.Mag(), n.Mag();
    var c := CmpMpi(a, n);
    if c >= 0 {
      var ret := ModMpi(x, a, n);
      DivModFacts(av, nv);
      CongMod(av, nv);
      Grow(x, n.p.Length + 1);
    } else {
      Copy(x, a);
      CongRefl(av, nv);
    }
  }

  lemma TimesSquaredRadix(x: int, rr: int, av: int, r: int, n: int)
    requires n > 0 && Cong(x, av, n) && Cong(rr, r * r, n)
    ensures Cong(x * rr, av * r * r, n)
  {
    CongMul(x, av, rr, r * r, n);
    MulAssoc(av, r, r);
  }

  /** W[1] = A * R mod N, for the absolute value of A. */
  method LoadBase(k: Work, a: Mpi, rr: Mpi)
    requires Separate(k) && Ready(k.n, k.mm, k.t) && |k.w| > 1 && k.w[1].Valid() && a.Valid() && a.s == 1
    requires k.w[1].p.Length > k.n.p.Length && SquaredRadix(rr, k.n) && rr.p != k.t.p
    requires a != k.w[1] && a.p != k.w[1].p && rr != k.w[1] && rr.p != k.w[1].p
    modifies k.w[1], k.w[1].p, k.t.p
    ensures k.w[1].p == old(k.w[1].p) || fresh(k.w[1].p)
    ensures Separate(k) && Form(k.w[1], k.n, old(a.Mag()))
  {
    hide Nat, BPow, Cong, Pow2;
    ReadyFacts(k.n, k.mm, k.t);
    ghost var av, r := a.Mag(), BPow(k.n.p.Length);
    Reduce(k.w[1], a, k.n);
    TimesSquaredRadix(k.w[1].Mag(), rr.Mag(), av, r, k.n.Mag());
    MulMod(k.w[1], rr, k.n, k.mm, k.t, av * r);
  }

  /** W[0] = R mod N, which represents 1. */
  method LoadOne(k: Work, rr: Mpi)
    requires Separate(k) && Ready(k.n, k.mm, k.t) && |k.w| > 0 && k.w[0].Valid()
    requires k.w[0].p.Length > k.n.p.Length && SquaredRadix(rr, k.n) && rr.p.Length > 0
    requires rr != k.w[0] && rr.p != k.w[0].p
    modifies k.w[0], k.w[0].p, k.t.p
    ensures k.w[0].p == old(k.w[0].p) || fresh(k.w[0].p)
    ensures Separate(k) && Form(k.w[0], k.n, 1) && k.w[0].s == 1
  {
    hide Nat, BPow, Cong, Pow2;
    ReadyFacts(k.n, k.mm, k.t);
    ghost var r := BPow(k.n.p.Length);
    Copy(k.w[0], rr);
    MontRed(k.w[0], k.n, k.mm, k.t, r);
  }

  /** y is not one of the working variables. */
  ghost predicate Foreign(y: Mpi, k: Work)
    reads y, k.w, k.ww, k.t
  {
    (forall i :: 0 <= i < |k.w| ==> y != k.w[i] && y.p != k.w[i].p)
    && y !in {k.ww, k.t} && y.p !in {k.ww.p, k.t.p}
  }

  ghost predicate Blank(k: Work)
    reads k.w, set x | x in k.w :: x.p
    reads k.ww, k.t, k.n, k.n.p
  {
    Separate(k) && Ready(k.n, k.mm, k.t) && k.wsize > 0 && 2 <= k.Size() <= |k.w|
    && k.w[0].p.Length > k.n.p.Length && k.w[1].p.Length > k.n.p.Length
    && forall i :: 0 <= i < |k.w| ==> k.w[i].Valid()
  }

  /** Make room in entry i. */
  method GrowEntry(k: Work, i: nat)
    requires Separate(k) && i < |k.w| && k.w[i].Valid()
    modifies k.w[i], k.w[i].p
    ensures k.w[i].p == old(k.w[i].p) || fresh(k.w[i].p)
    ensures Separate(k) && k.w[i].Valid() && k.w[i].p.Length > k.n.p.Length
  {
    hide Nat, BPow;
    Grow(k.w[i], k.n.p.Length + 1);
  }

  /** A fresh working set; nothing in the table yet. */
  method NewBuffers(n: Mpi, mm: Limb, wsize: WindowBits) returns (k: Work)
    requires n.Valid() && n.s == 1 && n.p.Length > 0 && n.p[0] % 2 == 1 && Cong(n.p[0] * mm, -1, B)
    ensures fresh(k.w) && forall i :: 0 <= i < |k.w| ==> fresh(k.w[i].p) && k.w[i].Valid()
    ensures fresh(k.ww) && fresh(k.ww.p) && fresh(k.t) && fresh(k.t.p)
    ensures k.n == n && k.mm == mm && k.wsize == wsize && |k.w| == Pow2(MaxWindow)
    ensures Separate(k) && Ready(n, mm, k.t)
  {
    hide Nat, BPow, Cong;
    var ww := new Mpi();
    var t := new Mpi();
    Grow(t, (n.p.Length + 1) * 2);
    var w := NewTable(Pow2(MaxWindow));
    k := Work(w, ww, n, mm, t, wsize);
  }

  /** A fresh working set with room in the accumulator and in entry 1. */
  method NewWork(n: Mpi, wsize: WindowBits) returns (k: Work)
    requires n.Valid() && n.s == 1 && n.p.Length > 0 && n.p[0] % 2 == 1 && wsize <= MaxWindow
    ensures fresh(k.w) && forall i :: 0 <= i < |k.w| ==> fresh(k.w[i].p)
    ensures fresh(k.ww) && fresh(k.ww.p) && fresh(k.t) && fresh(k.t.p)
    ensures k.n == n && k.wsize == wsize && |k.w| > 0 && Blank(k)
  {
    hide Nat, BPow, Cong, Pow2, Ready;
    var mm := MontmulInit(n.p);
    TableFits(wsize);
    k := NewBuffers(n, mm, wsize);
    GrowEntry(k, 0);
    GrowEntry(k, 1);
  }

  lemma TableFits(wsize: WindowBits)
    requires wsize <= MaxWindow
    ensures 2 <= Pow2(wsize) <= Pow2(MaxWindow)
  {
    Pow2Values();
    Pow2Mono(1, wsize);
    Pow2Mono(wsize, MaxWindow);
  }

  /** The first two entries: 1 and the base. */
  method LoadEntries(k: Work, a: Mpi, rr: Mpi)
    requires Blank(k) && Foreign(a, k) && Foreign(rr, k)
    requires a.Valid() && a.s == 1 && SquaredRadix(rr, k.n) && rr.p.Length > 0
    modifies k.w[..2], set x | x in k.w[..2] :: x.p
    modifies k.t.p
    ensures Separate(k) && Ready(k.n, k.mm, k.t)
    ensures Form(k.w[0], k.n, 1) && k.w[0].s == 1 && Form(k.w[1], k.n, old(a.Mag()))
    ensures forall i :: 2 <= i < |k.w| ==> k.w[i].Valid()
    ensures forall i :: 0 <= i < 2 ==> k.w[i].p == old(k.w[i].p) || fresh(k.w[i].p)
  {
    hide Nat, BPow, Cong, Pow2, Form, SquaredRadix;
    LoadBase(k, a, rr);
    LoadOne(k, rr);
  }

  /** A table of two entries needs no filling. */
  lemma TableOfTwo(k: Work, av: nat)
    requires Separate(k) && Ready(k.n, k.mm, k.t) && k.wsize == 1 && |k.w| >= 2 && Form(k.w[1], k.n, av)
    ensures Tables(k, av)
  {
    hide Form, Ready;
    PowOne(av);
    Pow2Values();
  }

  lemma StartsAtOne(k: Work, av: nat)
    requires |k.w| > 0 && Form(k.w[0], k.n, 1)
    ensures Acc(k, av, 0)
  {
    hide Form;
    PowZero(av);
  }

  /** Fill the table and set the accumulator to 1. */
  method Prepare(k: Work, a: Mpi, rr: Mpi)
    requires Blank(k) && Foreign(a, k) && Foreign(rr, k)
    requires a.Valid() && a.s == 1 && SquaredRadix(rr, k.n) && rr.p.Length > 0
    modifies k.w, set x | x in k.w :: x.p
    modifies k.t.p
    ensures Tables(k, old(a.Mag())) && Acc(k, old(a.Mag()), 0) && k.w[0].s == 1
    ensures forall i :: 0 <= i < |k.w| ==> k.w[i].p == old(k.w[i].p) || fresh(k.w[i].p)
  {
    hide Nat, BPow, Cong, Pow2, Pow, Form, Ready, Table, SquaredRadix;
    ghost var av := a.Mag();
    LoadEntries(k, a, rr);
    if k.wsize > 1 { FillTable(k, av); } else { TableOfTwo(k, av); }
    StartsAtOne(k, av);
  }

  /** Leave Montgomery form. */
  method Finish(k: Work, ghost av: nat, ghost e: nat)
    requires Tables(k, av) && Acc(k, av, e)
    modifies k.w[0].p, k.t.p
    ensures k.w[0].Mag() == Pow(av, e) % k.n.Mag() && k.w[0].p.Length > 0
    ensures Separate(k) && k.n.Mag() == old(k.n.Mag())
  {
    hide Nat, BPow, Cong, Pow2, Pow;
    MontRed(k.w[0], k.n, k.mm, k.t, Pow(av, e));
    CongIs(k.w[0].Mag(), Pow(av, e), k.n.Mag());
    ModSmall(k.w[0].Mag(), k.n.Mag());
  }

  /** The main loop over the exponent, the rest of the last window, and the way back. */
  method RunExponent(k: Work, ep: array<Limb>, ghost av: nat)
    requires Tables(k, av) && Acc(k, av, 0)
    requires ep !in {k.ww.p, k.t.p} && forall i :: 0 <= i < |k.w| ==> ep != k.w[i].p
    modifies k.ww, k.ww.p, k.w[0].p, k.t.p
    ensures Separate(k) && k.n.Mag() == old(k.n.Mag()) > 0
    ensures k.w[0].Mag() == Pow(av, Nat(old(ep[..]))) % k.n.Mag() && k.w[0].p.Length > 0
  {
    hide Nat, BPow, Cong, Pow2, Pow, Form, Table, Tables, Acc, Ready;
    TablesModulus(k, av);
    ghost var ev := Nat(ep[..]);
    var nbits, win, g, x := Scan(k, ep, av);
    Tail(k, nbits, win, av, g, x);
    Finish(k, av, ev);
  }

  lemma TablesModulus(k: Work, av: nat)
    requires Tables(k, av)
    ensures Separate(k) && k.n.Mag() > 0 && |k.w| > 0
  {
    hide Nat, Form;
    ReadyFacts(k.n, k.mm, k.t);
  }

  /** |A|^E mod N in the accumulator. */
  method Power(k: Work, a: Mpi, e: Mpi, rr: Mpi)
    requires Blank(k) && Foreign(a, k) && Foreign(e, k) && Foreign(rr, k)
    requires a.Valid() && a.s == 1 && SquaredRadix(rr, k.n) && rr.p.Length > 0
    modifies k.w, set x | x in k.w :: x.p
    modifies k.ww, k.ww.p, k.t.p
    ensures Separate(k) && k.n.Mag() == old(k.n.Mag()) > 0
    ensures k.w[0].Mag() == Pow(old(a.Mag()), old(e.Mag())) % k.n.Mag()
    ensures k.w[0].p.Length > 0 && k.w[0].s == 1
    ensures k.w[0].p == old(k.w[0].p) || fresh(k.w[0].p)
  {
    hide Nat, BPow, Cong, Pow2, Pow, Form, Table, Ready, Acc, SquaredRadix;
    ghost var av := a.Mag();
    Prepare(k, a, rr);
    RunExponent(k, e.p, av);
  }

  /** The modulus and exponent that exp_mod accepts. */
  ghost predicate ExpAccepts(e: int, n: int) {
    n > 0 && n % 2 == 1 && e >= 0 && BitLen(e) <= MaxBits && BitLen(n) <= MaxBits
  }

  method ExpCheck(e: Mpi, n: Mpi) returns (ok: bool)
    requires e.Valid() && n.Valid()
    ensures ok <==> ExpAccepts(e.Val(), n.Val())
    ensures ok ==> n.s == 1 && n.p.Length > 0 && n.p[0] % 2 == 1
  {
    hide Nat, BPow, Pow2, BitLen;
    WordFacts();
    NatEmpty();
    var c := CmpInt(n, 0);
    if c <= 0 { return false; }
    NonZeroHasLimbs(n.p[..]);
    NatParity(n.p[..]);
    if n.p[0] % 2 == 0 { return false; }
    c := CmpInt(e, 0);
    if c < 0 { return false; }
    var eb := Bitlen(e);
    var nb := Bitlen(n);
    return eb <= MaxBits && nb <= MaxBits;
  }

  ghost function CacheObject(prec: Mpi?): set<Mpi> {
    if prec == null then {} else {prec}
  }

  /** R^2 mod N: taken from the cache if it holds anything, else computed and stored there.
      Cache and local variable then share one buffer, as in the source. */
  method LoadRR(n: Mpi, prec: Mpi?) returns (rr: Mpi)
    requires n.Valid() && n.s == 1 && n.Mag() > 0
    requires prec != null ==> prec != n && (prec.p.Length > 0 ==> SquaredRadix(prec, n))
    modifies CacheObject(prec)
    ensures fresh(rr) && SquaredRadix(rr, n) && n.Mag() == old(n.Mag())
    ensures rr.p.Length > 0 || n.p.Length == 0
    ensures prec != null ==> SquaredRadix(prec, n)
    ensures if prec == null then fresh(rr.p)
            else prec.p == rr.p && (if old(prec.p.Length) > 0 then rr.p == old(prec.p) else fresh(rr.p))
  {
    hide Nat, BPow, Cong;
    rr := new Mpi();
    if prec == null || prec.p.Length == 0 {
      var ret := GetMontR2(rr, n);
      if prec != null { prec.s, prec.p := rr.s, rr.p; }
    } else {
      rr.s, rr.p := prec.s, prec.p;
    }
  }

  /** Undo the sign removed from a negative base: an odd power is negative. */
  method FixSign(r: Mpi, e: Mpi, n: Mpi, neg: bool, ghost m: nat)
    requires n.Valid() && n.s == 1 && n.Mag() > m && r.Mag() == m && r.p.Length > 0 && r.s == 1
    requires r !in {e, n} && r.p !in {e.p, n.p}
    modifies r, r.p
    ensures r.p == old(r.p) || fresh(r.p)
    ensures r.Valid() && r.Val() == if neg && e.Mag() % 2 == 1 then n.Mag() - m else m
    ensures r.p.Length > 0
  {
    hide Nat, BPow;
    NatEmpty();
    if e.p.Length == 0 {
      assert e.p[..] == [];
    } else {
      NatParity(e.p[..]);
    }
    if neg && e.p.Length != 0 && e.p[0] % 2 != 0 {
      r.s := -1;
      AddMpi(r, n, r);
    }
  }

  /** The absolute value of a. */
  method Absolute(a: Mpi) returns (base: Mpi)
    requires a.Valid()
    ensures base == a || (fresh(base) && fresh(base.p))
    ensures base.Valid() && base.s == 1 && base.Mag() == a.Mag()
  {
    hide Nat, BPow;
    base := a;
    if a.s == -1 {
      base := new Mpi();
      Copy(base, a);
      base.s := 1;
    }
  }

  /** |base|^e mod n in a fresh MPI. */
  method PowerOf(base: Mpi, e: Mpi, n: Mpi, rr: Mpi) returns (r: Mpi)
    requires n.Valid() && n.s == 1 && n.p.Length > 0 && n.p[0] % 2 == 1
    requires base.Valid() && base.s == 1 && SquaredRadix(rr, n) && rr.p.Length > 0
    ensures fresh(r) && fresh(r.p) && r.p.Length > 0 && r.s == 1
    ensures n.Mag() > 0 && r.Mag() == Pow(base.Mag(), e.Mag()) % n.Mag()
  {
    hide Nat, BPow, Pow2, BitLen, Pow, Blank, Ready, Cong, SquaredRadix;
    var size := Bitlen(e);
    var k := NewWork(n, WindowSize(size));
    Power(k, base, e, rr);
    r := k.w[0];
  }

  /** a^e mod n, as exp_mod computes it, in a fresh MPI. */
  method Exponentiate(a: Mpi, e: Mpi, n: Mpi, rr: Mpi) returns (r: Mpi)
    requires n.Valid() && n.s == 1 && n.p.Length > 0 && n.p[0] % 2 == 1 && n.Mag() > 0
    requires a.Valid() && SquaredRadix(rr, n) && rr.p.Length > 0
    ensures fresh(r) && fresh(r.p) && r.p.Length > 0
    ensures r.Valid() && r.Val() == ModExp(a.Val(), e.Mag(), n.Mag())
  {
    hide Nat, BPow, Pow2, Pow, SquaredRadix;
    var base := Absolute(a);
    r := PowerOf(base, e, n, rr);
    DivModFacts(Pow(base.Mag(), e.Mag()), n.Mag());
    FixSign(r, e, n, a.s == -1, r.Mag());
  }

  /** x = a^e mod n. x may be a. prec, if given, caches R^2 mod n between calls. */
  method ExpMod(x: Mpi, a: Mpi, e: Mpi, n: Mpi, prec: Mpi?) returns (ret: Status)
    requires x.Valid() && a.Valid() && e.Valid() && n.Valid()
    requires Apart(x, a) && x !in {e, n} && x.p !in {e.p, n.p}
    requires prec != null ==> prec !in {x, a, e, n} && prec.p != x.p
    requires prec != null && prec.p.Length > 0 ==> SquaredRadix(prec, n)
    modifies x, x.p, CacheObject(prec)
    ensures x.p == old(x.p) || fresh(x.p)
    ensures ret == if ExpAccepts(old(e.Val()), n.Val()) then Success else BadInputData
    ensures x.Valid()
    ensures ret.Success? ==> n.Val() > 0 && old(e.Val()) >= 0
    ensures x.Val() == old(if ret.Success? then ModExp(a.Val(), e.Val(), n.Val()) else x.Val())
    ensures prec != null ==> prec.p == old(prec.p) || fresh(prec.p)
    ensures prec != null && ret.Success? ==> prec.p != x.p && SquaredRadix(prec, n)
  {
    hide Nat, BPow, Pow2, BitLen, SquaredRadix, ExpAccepts, ModExp;
    var ok := ExpCheck(e, n);
    if !ok { return BadInputData; }
    ExpRanges(e.Val(), n.Val());
    var rr := LoadRR(n, prec);
    var r := Exponentiate(a, e, n, rr);
    Copy(x, r);
    return Success;
  }

  lemma ExpRanges(e: int, n: int)
    requires ExpAccepts(e, n)
    ensures n > 0 && e >= 0
  {}
}
