/** Bit counts and shifts of MPIs. */
module MpiBits {
  import opened Arith
  import opened Words
  import opened Limbs
  import opened Mpis

  // ---------- bit lengths ----------

  /** Number of significant bits. */
  function BitLen(n: nat): nat {
    if n == 0 then 0 else 1 + BitLen(n / 2)
  }

  lemma {:induction false} BitLenBounds(n: nat)
    ensures n < Pow2(BitLen(n)) && (n == 0 ==> BitLen(n) == 0)
    ensures n > 0 ==> BitLen(n) > 0 && Pow2(BitLen(n) - 1) <= n
  {
    if n > 0 { BitLenBounds(n / 2); }
  }

  lemma BitLenUnique(n: nat, k: nat)
    requires n < Pow2(k) && (k > 0 ==> Pow2(k - 1) <= n)
    ensures BitLen(n) == k
  {
    BitLenBounds(n);
    if n > 0 {
      Pow2Between(n, BitLen(n) - 1, k);
      if k > 0 { Pow2Between(n, k - 1, BitLen(n)); }
    }
  }

  lemma BitLenMono(m: nat, n: nat)
    requires m <= n
    ensures BitLen(m) <= BitLen(n)
  {
    BitLenBounds(m);
    BitLenBounds(n);
    if m > 0 { Pow2Between(m, BitLen(m) - 1, BitLen(n)); }
  }

  /** Number of trailing zero bits; 0 for 0. */
  function TrailingZeros(n: nat): nat {
    if n == 0 || n % 2 == 1 then 0 else 1 + TrailingZeros(n / 2)
  }

  lemma {:induction false} TrailingZerosSplit(n: nat)
    requires n > 0
    ensures n % Pow2(TrailingZeros(n)) == 0
    ensures n / Pow2(TrailingZeros(n)) % 2 == 1
    ensures n / Pow2(TrailingZeros(n)) * Pow2(TrailingZeros(n)) == n
  {
    var t := TrailingZeros(n);
    if n % 2 == 0 {
      TrailingZerosSplit(n / 2);
      HalvePow2(n, t);
      DivDiv(n, 2, Pow2(t - 1));
    }
    DivModFacts(n, Pow2(t));
  }

  lemma {:induction false} TrailingZerosUnique(n: nat, t: nat)
    requires n % Pow2(t) == 0 && n / Pow2(t) % 2 == 1
    ensures n > 0 && TrailingZeros(n) == t
    decreases t
  {
    if n == 0 { ModSmall(0, Pow2(t)); }
    if t > 0 {
      HalvePow2(n, t);
      DivDiv(n, 2, Pow2(t - 1));
      TrailingZerosUnique(n / 2, t - 1);
    } else {
      assert n / 1 == n;
    }
  }

  lemma {:induction false} AndPow2(x: nat, k: nat)
    ensures BitAnd(x, Pow2(k)) == if x / Pow2(k) % 2 == 1 then Pow2(k) else 0
    decreases k
  {
    if k == 0 {
      assert x / 1 == x && Pow2(0) == 1;
    } else {
      AndPow2(x / 2, k - 1);
      DivDiv(x, 2, Pow2(k - 1));
      if x == 0 { ModSmall(0, Pow2(k)); }
    }
  }

  lemma TopBitTest(x: nat, k: nat)
    requires x < Pow2(k + 1)
    ensures BitAnd(x, Pow2(k)) != 0 <==> x >= Pow2(k)
  {
    hide Pow2;
    assert Pow2(k + 1) == 2 * Pow2(k) by { Pow2Add(1, k); Pow2Values(); }
    AndPow2(x, k);
    if x >= Pow2(k) {
      DivModUnique(x, 1, x - Pow2(k), Pow2(k));
    } else {
      ModSmall(x, Pow2(k));
    }
  }

  lemma HalfMask(k: nat)
    ensures k > 0 ==> Pow2(k) / Pow2(1) == Pow2(k - 1)
    ensures Pow2(0) / Pow2(1) == 0
  {
    Pow2Values();
  }

  /** Number of leading zero bits of a limb. */
  method Clz(x: Limb) returns (j: nat)
    ensures j <= biL && BitLen(x) == biL - j
  {
    hide Pow2, BitLen, BitAnd;
    Pow2StrictMono(biL - 1, biL);
    Pow2Values();
    ModSmall(Pow2(biL - 1), B);
    var mask: Limb := ShlW(1, biL - 1);
    j := 0;
    while j < biL
      invariant j <= biL && x < Pow2(biL - j)
      invariant j < biL ==> mask == Pow2(biL - 1 - j)
    {
      TopBitTest(x, biL - 1 - j);
      if BitAnd(x, mask) != 0 {
        break;
      }
      HalfMask(biL - 1 - j);
      mask := ShrW(mask, 1);
      j := j + 1;
    }
    BitLenUnique(x, biL - j);
  }

  /** Bits of the top limb plus whole limbs below it. */
  lemma BitLenLimbs(s: seq<Limb>, i: nat)
    requires i < |s| && (forall k :: i < k < |s| ==> s[k] == 0) && (s[i] == 0 ==> i == 0)
    ensures i * biL >= 0 && BitLen(Nat(s)) == i * biL + BitLen(s[i])
  {
    hide Nat, BPow, Pow2;
    NatZeroTail(s, i + 1);
    NatTake(s, i);
    NatBound(s[..i]);
    BPowIsPow2(i);
    BitLenBounds(s[i]);
    var k := BitLen(s[i]);
    if s[i] == 0 {
      assert s[..0] == [];
      NatEmpty();
      return;
    }
    Pow2Add(biL * i, k);
    Pow2Add(biL * i, k - 1);
    BetweenPowers(Nat(s[..i]), s[i], BPow(i), Pow2(k - 1), Pow2(k));
    BitLenUnique(Nat(s), biL * i + k);
  }

  lemma BetweenPowers(lo: nat, v: nat, b: nat, p: nat, q: nat)
    requires lo < b && p <= v < q
    ensures b * p <= lo + v * b < b * q
  {
    MulMono(p, v, b);
    MulMono(v + 1, q, b);
    MulDist(v, 1, b);
  }

  method Bitlen(x: Mpi) returns (r: nat)
    ensures r == BitLen(x.Mag())
  {
    hide Nat, BPow;
    if x.p.Length == 0 {
      assert x.p[..] == [];
      NatEmpty();
      return 0;
    }
    var i := x.p.Length - 1;
    while i > 0 && x.p[i] == 0
      invariant 0 <= i < x.p.Length
      invariant forall k :: i < k < x.p.Length ==> x.p[k] == 0
    {
      i := i - 1;
    }
    var z := Clz(x.p[i]);
    BitLenLimbs(x.p[..], i);
    return i * biL + (biL - z);
  }

  // ---------- single bits ----------

  /** Bit j of limb i is bit i * biL + j of the number. */
  lemma BitAt(s: seq<Limb>, i: nat, j: nat)
    requires i < |s| && j < biL
    ensures i * biL >= 0
    ensures Nat(s) / Pow2(i * biL + j) % 2 == s[i] / Pow2(j) % 2
  {
    hide Nat, BPow, Pow2;
    NatSplit(s, i);
    NatBound(s[..i]);
    BPowIsPow2(i);
    DivModUnique(Nat(s), Nat(s[i..]), Nat(s[..i]), BPow(i));
    Pow2Add(biL * i, j);
    DivDiv(Nat(s), BPow(i), Pow2(j));
    var rest := s[i..];
    assert rest == [s[i]] + s[i + 1..];
    NatCons(s[i], s[i + 1..]);
    LowLimbBit(s[i], Nat(s[i + 1..]), j);
  }

  lemma LowLimbBit(x: Limb, high: nat, j: nat)
    requires j < biL
    ensures (x + B * high) / Pow2(j) % 2 == x / Pow2(j) % 2
  {
    hide Pow2;
    Pow2Add(j, biL - j);
    Pow2Add(1, biL - j - 1);
    Pow2Values();
    HighPartEven(x, high, Pow2(j), Pow2(biL - j - 1));
  }

  lemma HighPartEven(x: int, high: int, p: int, q: int)
    requires p > 0
    ensures (x + p * (2 * q) * high) / p % 2 == x / p % 2
  {
    var h := high * (2 * q);
    MulAssoc(high, 2 * q, p);
    assert h * p == p * (2 * q) * high;
    DivModShift(h, x, p);
    MulAssoc(high, q, 2);
    DivModShift(high * q, x / p, 2);
  }

  method GetBit(x: Mpi, pos: nat) returns (r: nat)
    ensures r == x.Mag() / Pow2(pos) % 2
  {
    hide Nat, BPow, Pow2;
    DivModFacts(pos, biL);
    if x.p.Length * biL <= pos {
      NatBound(x.p[..]);
      BPowIsPow2(x.p.Length);
      Pow2Mono(biL * x.p.Length, pos);
      ModSmall(x.Mag(), Pow2(pos));
      return 0;
    }
    DivLess(pos, biL, x.p.Length);
    BitAt(x.p[..], pos / biL, pos % biL);
    ShrFits(x.p[pos / biL], pos % biL);
    return ShrW(x.p[pos / biL], pos % biL) % 2;
  }

  /** The number of trailing zero bits, by looking at every bit in turn. */
  method Lsb(x: Mpi) returns (count: nat)
    ensures count == TrailingZeros(x.Mag())
  {
    hide Nat, BPow, Pow2, TrailingZeros;
    count := 0;
    Pow2Values();
    var i: nat := 0;
    ghost var n := x.Mag();
    while i < x.p.Length
      invariant i <= x.p.Length && count == i * biL
      invariant n % Pow2(count) == 0
    {
      var j: nat := 0;
      while j < biL
        invariant j <= biL && count == i * biL + j
        invariant n % Pow2(count) == 0
      {
        BitAt(x.p[..], i, j);
        if ShrW(x.p[i], j) % 2 != 0 {
          TrailingZerosUnique(n, count);
          return;
        }
        NextZeroBit(n, count);
        j := j + 1;
        count := count + 1;
      }
      i := i + 1;
    }
    NatBound(x.p[..]);
    BPowIsPow2(x.p.Length);
    ModSmall(n, Pow2(count));
    NoTrailingZeros();
    return 0;
  }

  lemma NoTrailingZeros()
    ensures TrailingZeros(0) == 0
  {}

  lemma NextZeroBit(n: nat, k: nat)
    requires n % Pow2(k) == 0 && n / Pow2(k) % 2 == 0
    ensures n % Pow2(k + 1) == 0
  {
    DivDiv(n, Pow2(k), 2);
  }
}
