/** Little-endian limb sequences and the number they stand for. */
module Limbs {
  import opened Arith
  import opened Words

  function BPow(n: nat): nat
    ensures BPow(n) > 0
  {
    PowPos(B, n);
    Pow(B, n)
  }

  /** The number with limbs s, least significant limb first. */
  function Nat(s: seq<Limb>): nat {
    if s == [] then 0
    else
      MulMono(0, s[|s| - 1], BPow(|s| - 1));
      Nat(s[..|s| - 1]) + s[|s| - 1] * BPow(|s| - 1)
  }

  /** Limbs needed for so many bits. */
  function BitsToLimbs(i: nat): (n: nat)
    ensures n * biL >= i
    ensures i > 0 ==> n > 0 && (n - 1) * biL < i
  {
    DivModFacts(i, biL);
    i / biL + Bit(i % biL != 0)
  }

  lemma BPowAdd(m: nat, n: nat)
    ensures BPow(m + n) == BPow(m) * BPow(n)
  {
    PowAdd(B, m, n);
  }

  lemma BPowStep(n: nat)
    ensures BPow(n + 1) == B * BPow(n) && BPow(n + 1) == BPow(n) * B && BPow(0) == 1
  {}

  lemma BPowIsPow2(n: nat)
    ensures biL * n >= 0 && BPow(n) == Pow2(biL * n)
  {
    Pow2Pow(biL, n);
  }

  lemma {:induction false} BPowMono(m: nat, n: nat)
    requires m <= n
    ensures BPow(m) <= BPow(n)
    decreases n
  {
    if m < n {
      BPowMono(m, n - 1);
      BPowStep(n - 1);
      WordFacts();
      MulMono(1, B, BPow(n - 1));
    }
  }

  lemma NatTake(s: seq<Limb>, i: nat)
    requires i < |s|
    ensures Nat(s[..i + 1]) == Nat(s[..i]) + s[i] * BPow(i)
  {
    assert s[..i + 1][..i] == s[..i];
  }

  lemma NatEmpty()
    ensures Nat([]) == 0 && BPow(0) == 1
  {}

  lemma NatSingle(x: Limb)
    ensures Nat([x]) == x
  {
    BPowStep(0);
    assert [x][..0] == [];
  }

  lemma NatPair(x: Limb, y: Limb)
    ensures Nat([x, y]) == x + y * B
  {
    NatSingle(x);
    BPowStep(0);
    assert [x, y][..1] == [x];
  }

  lemma {:induction false} NatConcat(a: seq<Limb>, b: seq<Limb>)
    ensures Nat(a + b) == Nat(a) + BPow(|a|) * Nat(b)
    decreases |b|
  {
    if b == [] {
      assert a + b == a;
    } else {
      hide BPow;
      var n := |b| - 1;
      assert (a + b)[..|a| + n] == a + b[..n];
      NatConcat(a, b[..n]);
      BPowAdd(|a|, n);
      MulDistMid(BPow(|a|), Nat(b[..n]), b[n], BPow(n));
    }
  }

  lemma NatSplit(s: seq<Limb>, i: nat)
    requires i <= |s|
    ensures Nat(s) == Nat(s[..i]) + BPow(i) * Nat(s[i..])
  {
    assert s == s[..i] + s[i..];
    NatConcat(s[..i], s[i..]);
  }

  lemma NatCons(x: Limb, s: seq<Limb>)
    ensures Nat([x] + s) == x + B * Nat(s)
  {
    NatSingle(x);
    NatConcat([x], s);
    BPowStep(0);
  }

  lemma {:induction false} NatBound(s: seq<Limb>)
    ensures Nat(s) < BPow(|s|)
  {
    if s != [] {
      var n := |s| - 1;
      NatBound(s[..n]);
      BPowStep(n);
      MulMono(s[n], B - 1, BPow(n));
      MulDist(B, 1, BPow(n));
    }
  }

  /** Storing one limb changes the number by the difference, at that limb's weight. */
  lemma {:induction false} NatUpdate(s: seq<Limb>, i: nat, v: Limb)
    requires i < |s|
    ensures Nat(s[i := v]) == Nat(s) + (v - s[i]) * BPow(i)
    decreases |s|
  {
    var n := |s| - 1;
    var s' := s[i := v];
    MulDist(v, s[i], BPow(i));
    if i == n {
      assert s'[..n] == s[..n];
    } else {
      NatUpdate(s[..n], i, v);
      assert s'[..n] == s[..n][i := v];
    }
  }

  lemma {:induction false} NatZeros(s: seq<Limb>)
    requires forall k :: 0 <= k < |s| ==> s[k] == 0
    ensures Nat(s) == 0
  {
    if s != [] { NatZeros(s[..|s| - 1]); }
  }

  lemma {:induction false} NatZeroLimbs(s: seq<Limb>)
    requires Nat(s) == 0
    ensures forall k :: 0 <= k < |s| ==> s[k] == 0
  {
    if s != [] {
      var n := |s| - 1;
      if s[n] > 0 { MulPos(s[n], BPow(n)); }
      NatZeroLimbs(s[..n]);
      assert forall k :: 0 <= k < n ==> s[k] == s[..n][k];
    }
  }

  /** Leading zero limbs do not count. */
  lemma NatZeroTail(s: seq<Limb>, i: nat)
    requires i <= |s| && forall k :: i <= k < |s| ==> s[k] == 0
    ensures Nat(s) == Nat(s[..i])
  {
    NatZeros(s[i..]);
    NatSplit(s, i);
  }

  lemma NoHighPart(lo: nat, hi: nat, p: nat)
    requires lo + hi * p < p
    ensures hi == 0 && hi * p == 0
  {
    if hi > 0 { MulMono(1, hi, p); }
  }

  lemma NatFitsTail(s: seq<Limb>, i: nat)
    requires i <= |s| && Nat(s) < BPow(i)
    ensures forall k :: i <= k < |s| ==> s[k] == 0
    ensures Nat(s) == Nat(s[..i])
  {
    hide BPow, Nat;
    NatSplit(s, i);
    NoHighPart(Nat(s[..i]), Nat(s[i..]), BPow(i));
    NatZeroLimbs(s[i..]);
    assert forall k :: i <= k < |s| ==> s[k] == s[i..][k - i];
  }

  /** A nonzero limb gives a lower bound. */
  lemma NatAtLeast(s: seq<Limb>, i: nat)
    requires i < |s|
    ensures s[i] * BPow(i) <= Nat(s)
    ensures s[i] > 0 ==> BPow(i) <= Nat(s)
  {
    NatSplit(s, i + 1);
    NatTake(s, i);
    MulMono(0, Nat(s[i + 1..]), BPow(i + 1));
    if s[i] > 0 { MulMono(1, s[i], BPow(i)); }
  }

  lemma NatLow(s: seq<Limb>)
    requires |s| > 0
    ensures Nat(s) % B == s[0] && Nat(s) / B == Nat(s[1..])
  {
    hide BPow, Nat;
    assert s == [s[0]] + s[1..];
    NatCons(s[0], s[1..]);
    DivModUnique(Nat(s), Nat(s[1..]), s[0], B);
  }

  lemma NatParity(s: seq<Limb>)
    requires |s| > 0
    ensures Nat(s) % 2 == s[0] % 2
  {
    hide BPow, Nat;
    WordFacts();
    assert s == [s[0]] + s[1..];
    NatCons(s[0], s[1..]);
    MulAssoc(2, B / 2, Nat(s[1..]));
    DivModShift((B / 2) * Nat(s[1..]), s[0], 2);
  }

  /** Equally long sequences with equal low parts compare as their high parts. */
  lemma NatCompare(s: seq<Limb>, t: seq<Limb>, i: nat)
    requires i < |s| && i < |t| && s[i] < t[i]
    ensures Nat(s[..i + 1]) < Nat(t[..i + 1])
  {
    NatTake(s, i);
    NatTake(t, i);
    NatBound(s[..i]);
    MulMono(s[i] + 1, t[i], BPow(i));
    MulDist(s[i], 1, BPow(i));
  }

  // ---------- the kernels ----------

  /** A product of two limbs fits in two limbs, with room for two more. */
  lemma ProductFits(s: Limb, b: Limb)
    ensures 0 <= s * b <= B * B - 2 * B + 1
    ensures 0 <= (s * b) / B < B
  {
    hide Pow2;
    WordFacts();
    MulMono(0, s, b);
    MulMono(s, B - 1, b);
    MulMono(b, B - 1, B - 1);
    MulDist(B, 1, B - 1);
    DivLess(s * b, B, B);
  }

  /** One step of the multiply-accumulate macro: the new limb and the carry. */
  function MulAddC(s: Limb, b: Limb, c: Limb, d: Limb): (Limb, Limb)
  {
    ProductFits(s, b);
    var r0: Limb := (s * b) % B;
    var r1: Limb := (s * b) / B;
    var r0' := AddW(r0, c);
    var r1' := AddW(r1, Bit(r0' < c));
    var r0'' := AddW(r0', d);
    var r1'' := AddW(r1', Bit(r0'' < d));
    (r0'', r1'')
  }

  /** The macro loses nothing: limb and carry together hold s * b + c + d. */
  lemma MulAddCExact(s: Limb, b: Limb, c: Limb, d: Limb)
    ensures s * b + c + d == MulAddC(s, b, c, d).0 + MulAddC(s, b, c, d).1 * B
  {
    hide Pow2;
    ProductFits(s, b);
    var x := s * b;
    DivModFacts(x, B);
    var r0: Limb, r1: Limb := x % B, x / B;
    var r0' := AddW(r0, c);
    AddCarry(r0, c);
    var k1 := r1 + Bit(r0' < c);
    AddCarry(r0', d);
    var k2 := k1 + Bit(AddW(r0', d) < d);
    MulDist(r1, Bit(r0' < c), B);
    MulDist(k1, Bit(AddW(r0', d) < d), B);
    assert x + c + d == AddW(r0', d) + k2 * B;
    if k2 >= B { MulMono(B, k2, B); }
    ModSmall(k1, B);
    ModSmall(k2, B);
  }

  // ---------- the same step without a double-width type ----------

  function LowHalfOf(x: Limb): Limb { ShrW(ShlW(x, biH), biH) }

  function HighHalfOf(x: Limb): Limb { ShrW(x, biH) }

  lemma HalvesOf(x: Limb)
    ensures x == HighHalfOf(x) * H + LowHalfOf(x) && HighHalfOf(x) < H && LowHalfOf(x) < H
  {
    hide Pow2;
    WordFacts();
    SplitProduct(x, H, H);
    DivModUnique(x * H, x / H, x % H * H, B);
    DivModUnique(x % H * H, x % H, 0, H);
    DivModFacts(x, H);
    DivLess(x, H, H);
  }

  /** Adding x to the limb r, with the lost carry in the limb above. */
  function AddInto(r: (Limb, Limb), x: Limb): (Limb, Limb) {
    var low := AddW(r.0, x);
    (low, AddW(r.1, Bit(low < x)))
  }

  /** One step on half words: four products, the middle ones split over both limbs. */
  function HalfMulAddC(s: Limb, b: Limb, c: Limb, d: Limb): (Limb, Limb) {
    var s0, s1, b0, b1 := LowHalfOf(s), HighHalfOf(s), LowHalfOf(b), HighHalfOf(b);
    var rx, ry := MulW(s0, b1), MulW(s1, b0);
    var r1 := AddW(AddW(MulW(s1, b1), ShrW(rx, biH)), ShrW(ry, biH));
    AddInto(AddInto(AddInto(AddInto((MulW(s0, b0), r1), ShlW(rx, biH)), ShlW(ry, biH)), c), d)
  }

  /** What limb and carry above it are worth. */
  function Worth(r: (Limb, Limb)): nat {
    MulMono(0, r.1, B);
    r.0 + r.1 * B
  }

  lemma AddIntoExact(r: (Limb, Limb), x: Limb)
    requires Worth(r) + x < B * B
    ensures Worth(AddInto(r, x)) == Worth(r) + x
  {
    hide Pow2;
    AddCarry(r.0, x);
    var low := AddW(r.0, x);
    MulDist(r.1, Bit(low < x), B);
    if r.1 + Bit(low < x) >= B { MulMono(B, r.1 + Bit(low < x), B); }
    ModSmall(r.1 + Bit(low < x), B);
  }

  /** A product of half words fits a limb; shifted up by half a word it falls into two parts. */
  lemma MiddleProduct(x: Limb, y: Limb)
    requires x < H && y < H
    ensures MulW(x, y) == x * y && x * y * H == ShlW(MulW(x, y), biH) + ShrW(MulW(x, y), biH) * B
  {
    hide *;
    HalfProductFits(x, y, H);
    WordFacts();
    HalfProductIs(x, y);
    HalfShift(x * y);
  }

  lemma HalfProductIs(x: Limb, y: Limb)
    requires 0 <= x * y < B
    ensures MulW(x, y) == x * y
  {
    hide Pow2;
    ModSmall(x * y, B);
  }

  lemma HalfShift(v: Limb)
    ensures v * H == ShlW(v, biH) + ShrW(v, biH) * B
  {
    hide Pow2, ShlW;
    WordFacts();
    assert biL - biH == biH;
    ShlSplit(v, biH);
  }

  lemma HalfProductFits(x: int, y: int, h: int)
    requires 0 <= x < h && 0 <= y < h
    ensures 0 <= x * y < h * h
  {
    MulMono(0, x, y);
    MulMono(x, h - 1, y);
    MulMono(y, h, h - 1);
    MulDist(h, 1, h);
  }

  lemma FourProducts(s1: int, s0: int, b1: int, b0: int, h: int)
    ensures (s1 * h + s0) * (b1 * h + b0) == s1 * b1 * (h * h) + s0 * b1 * h + s1 * b0 * h + s0 * b0
  {
    MulDist(s1 * h, s0, b1 * h + b0);
    MulDist(b1 * h, b0, s1 * h);
    MulDist(b1 * h, b0, s0);
    MulSwap(s1, h, b1, h);
    MulAssoc(s0, b1, h);
    MulAssoc(s1, b0, h);
    MulAssoc(s1, h, b0);
  }

  /** Both forms of the macro compute the same limb and the same carry. */
  lemma HalfFormSame(s: Limb, b: Limb, c: Limb, d: Limb)
    ensures HalfMulAddC(s, b, c, d) == MulAddC(s, b, c, d)
  {
    hide *;
    HalfFormExact(s, b, c, d);
    MulAddCExact(s, b, c, d);
    var x, y := HalfMulAddC(s, b, c, d), MulAddC(s, b, c, d);
    WorthUnique(x, y, s * b + c + d);
  }

  lemma WorthUnique(x: (Limb, Limb), y: (Limb, Limb), v: int)
    requires x.0 + x.1 * B == v == y.0 + y.1 * B
    ensures x == y
  {
    hide Pow2;
    DivModUnique(v, x.1, x.0, B);
    DivModUnique(v, y.1, y.0, B);
  }

  lemma HalfFormExact(s: Limb, b: Limb, c: Limb, d: Limb)
    ensures HalfMulAddC(s, b, c, d).0 + HalfMulAddC(s, b, c, d).1 * B == s * b + c + d
  {
    hide Pow2, ShlW, ShrW, MulW, AddW, LowHalfOf, HighHalfOf, AddInto;
    var s0, s1, b0, b1 := LowHalfOf(s), HighHalfOf(s), LowHalfOf(b), HighHalfOf(b);
    HalvesOf(s);
    HalvesOf(b);
    FourProducts(s1, s0, b1, b0, H);
    MiddleProduct(s0, b1);
    MiddleProduct(s1, b0);
    MiddleProduct(s0, b0);
    MiddleProduct(s1, b1);
    ProductFits(s, b);
    assert B == H * H by { WordFacts(); }
    var rx, ry := MulW(s0, b1), MulW(s1, b0);
    HighParts(s1 * b1, ShrW(rx, biH), ShrW(ry, biH), s0 * b0, ShlW(rx, biH), ShlW(ry, biH), s * b);
    var r := (MulW(s0, b0), AddW(AddW(MulW(s1, b1), ShrW(rx, biH)), ShrW(ry, biH)));
    AddIntoExact(r, ShlW(rx, biH));
    AddIntoExact(AddInto(r, ShlW(rx, biH)), ShlW(ry, biH));
    AddIntoExact(AddInto(AddInto(r, ShlW(rx, biH)), ShlW(ry, biH)), c);
    AddIntoExact(AddInto(AddInto(AddInto(r, ShlW(rx, biH)), ShlW(ry, biH)), c), d);
  }

  /** The three high parts add up without wrapping. */
  lemma HighParts(p: Limb, x: Limb, y: Limb, low: Limb, x': Limb, y': Limb, product: int)
    requires product == p * B + (x' + x * B) + (y' + y * B) + low && product <= B * B - 2 * B + 1
    ensures AddW(AddW(p, x), y) == p + x + y
    ensures low + (p + x + y) * B + x' + y' == product
  {
    hide Pow2;
    WordFacts();
    HighSum(p, x, y, low, x', y', product, B);
    ModSmall(p + x, B);
    ModSmall(p + x + y, B);
  }

  lemma HighSum(p: int, x: int, y: int, low: nat, x': nat, y': nat, product: int, b: int)
    requires product == p * b + (x' + x * b) + (y' + y * b) + low && product <= b * b - 2 * b + 1 && b > 1
    ensures p + x + y < b && low + (p + x + y) * b + x' + y' == product
  {
    MulDist(p, x, b);
    MulDist(p + x, y, b);
    if p + x + y >= b { MulMono(b, p + x + y, b); }
  }
}
