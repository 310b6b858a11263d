/** Machine words of the big-number code. The limb width is a parameter: every result
    holds for 32-bit and for 64-bit limbs. A word operation of C is written out with its
    reduction modulo the word size. */
module Words {
  import opened Arith

  type WordBits = n: nat | n == 32 || n == 64 witness 32

  /** Bits, bytes and half-word bits of a limb (biL, ciL, biH of the C code). */
  const biL: WordBits
  const ciL: nat := biL / 8
  const biH: nat := biL / 2

  /** Number of values of a limb, and of half a limb. */
  const B: nat := Pow2(biL)
  const H: Limb := HalfRadix()

  type Limb = x: nat | x < B

  function HalfRadix(): (h: Limb)
    ensures h == Pow2(biH) && h > 0
  {
    Pow2StrictMono(biH, biL);
    Pow2(biH)
  }

  type Byte = x: nat | x < 256

  type Bytes = seq<Byte>

  lemma WordFacts()
    ensures B == Pow2(biL) && H == Pow2(biH)
    ensures B == H * H && B == 2 * Pow2(biL - 1) && B == 4 * Pow2(biL - 2)
    ensures B % 2 == 0 && H % 2 == 0 && B >= 0x1_0000_0000 && H >= 0x1_0000 && 2 * H <= B
    ensures ciL * 8 == biL && biH * 2 == biL && (ciL == 4 || ciL == 8)
  {
    Pow2Add(biH, biH);
    Pow2WordValues();
    assert B == 2 * Pow2(biL - 1);
    assert Pow2(biL - 1) == 2 * Pow2(biL - 2);
    assert H == 2 * Pow2(biH - 1);
  }

  // ---------- wrap-around arithmetic ----------

  function AddW(x: Limb, y: Limb): Limb { (x + y) % B }

  function SubW(x: Limb, y: Limb): Limb { (x - y) % B }

  function MulW(x: Limb, y: Limb): Limb { (x * y) % B }

  /** The value of a C comparison. */
  function Bit(b: bool): (r: nat)
    ensures r <= 1
  {
    if b then 1 else 0
  }

  /** Comparing a wrapped sum with a summand recovers the lost carry. */
  lemma AddCarry(x: Limb, y: Limb)
    ensures x + y == AddW(x, y) + Bit(AddW(x, y) < y) * B
  {
    if x + y < B {
      ModSmall(x + y, B);
    } else {
      DivModUnique(x + y, 1, x + y - B, B);
    }
  }

  /** Comparing the operands tells whether a difference wrapped. */
  lemma SubBorrow(x: Limb, y: Limb)
    ensures x - y == SubW(x, y) - Bit(x < y) * B
  {
    if x >= y {
      ModSmall(x - y, B);
    } else {
      DivModUnique(x - y, -1, x - y + B, B);
    }
  }

  // ---------- bitwise operations on naturals ----------

  function BitOr(x: nat, y: nat): nat {
    if x == 0 then y
    else if y == 0 then x
    else 2 * BitOr(x / 2, y / 2) + Bit(x % 2 == 1 || y % 2 == 1)
  }

  function BitAnd(x: nat, y: nat): nat {
    if x == 0 || y == 0 then 0
    else 2 * BitAnd(x / 2, y / 2) + Bit(x % 2 == 1 && y % 2 == 1)
  }

  lemma HalvePow2(x: nat, t: nat)
    requires t > 0
    ensures x % Pow2(t) == 2 * (x / 2 % Pow2(t - 1)) + x % 2
    ensures x < Pow2(t) <==> x / 2 < Pow2(t - 1)
  {
    DivDiv(x, 2, Pow2(t - 1));
  }

  /** OR of words that share no set bit is their sum. */
  lemma {:induction false} OrIsAdd(x: nat, y: nat, t: nat)
    requires x % Pow2(t) == 0 && y < Pow2(t)
    ensures BitOr(x, y) == x + y
    decreases t
  {
    if t > 0 && x > 0 && y > 0 {
      HalvePow2(x, t);
      HalvePow2(y, t);
      OrIsAdd(x / 2, y / 2, t - 1);
    }
  }

  /** AND with a mask of t ones keeps the low t bits. */
  lemma {:induction false} AndMask(x: nat, t: nat)
    ensures BitAnd(x, Pow2(t) - 1) == x % Pow2(t)
    decreases t
  {
    if t == 0 {
      assert x % 1 == 0;
    } else {
      HalvePow2(x, t);
      AndMask(x / 2, t - 1);
      assert (Pow2(t) - 1) / 2 == Pow2(t - 1) - 1;
      if x == 0 { ModSmall(0, Pow2(t)); }
    }
  }

  lemma {:induction false} OrBounds(x: nat, y: nat, t: nat)
    requires x < Pow2(t) && y < Pow2(t)
    ensures x <= BitOr(x, y) < Pow2(t) && y <= BitOr(x, y)
    decreases t
  {
    if t > 0 && x > 0 && y > 0 {
      OrBounds(x / 2, y / 2, t - 1);
    }
  }

  lemma OrZero(x: nat)
    ensures BitOr(x, 0) == x && BitOr(0, x) == x && BitAnd(x, 0) == 0
  {}

  function BitXor(x: nat, y: nat): nat {
    if x == 0 then y
    else if y == 0 then x
    else 2 * BitXor(x / 2, y / 2) + Bit((x % 2 == 1) != (y % 2 == 1))
  }

  /** The top bit of a bitwise operation is the operation on the top bits. */
  lemma {:induction false} TopOfAnd(x: nat, y: nat, t: nat)
    requires x < Pow2(t + 1) && y < Pow2(t + 1)
    ensures BitAnd(x, y) < Pow2(t + 1) && (BitAnd(x, y) >= Pow2(t) <==> x >= Pow2(t) && y >= Pow2(t))
    decreases t
  {
    if t > 0 { TopOfAnd(x / 2, y / 2, t - 1); }
  }

  lemma {:induction false} TopOfOr(x: nat, y: nat, t: nat)
    requires x < Pow2(t + 1) && y < Pow2(t + 1)
    ensures BitOr(x, y) < Pow2(t + 1) && (BitOr(x, y) >= Pow2(t) <==> x >= Pow2(t) || y >= Pow2(t))
    decreases t
  {
    if t > 0 { TopOfOr(x / 2, y / 2, t - 1); }
  }

  lemma {:induction false} TopOfXor(x: nat, y: nat, t: nat)
    requires x < Pow2(t + 1) && y < Pow2(t + 1)
    ensures BitXor(x, y) < Pow2(t + 1)
    ensures BitXor(x, y) >= Pow2(t) <==> (x >= Pow2(t)) != (y >= Pow2(t))
    decreases t
  {
    if t > 0 { TopOfXor(x / 2, y / 2, t - 1); }
  }

  lemma TopBitValue(v: nat, p: nat)
    requires p > 0 && v < 2 * p
    ensures v / p == Bit(v >= p)
  {
    DivModUnique(v, Bit(v >= p), v - (if v >= p then p else 0), p);
  }

  lemma {:induction false} XorZero(x: nat, y: nat)
    ensures BitXor(x, y) == 0 <==> x == y
  {
    if x > 0 && y > 0 { XorZero(x / 2, y / 2); }
  }

  lemma {:induction false} OrIsZero(x: nat, y: nat)
    ensures BitOr(x, y) == 0 <==> x == 0 && y == 0
  {
    if x > 0 && y > 0 { OrIsZero(x / 2, y / 2); }
  }

  /** The low bits of an OR come from the low bits. */
  lemma {:induction false} OrLow(x: nat, y: nat, t: nat)
    ensures BitOr(x, y) % Pow2(t) == BitOr(x % Pow2(t), y % Pow2(t))
    decreases t
  {
    if t == 0 {
      assert x % 1 == 0 && y % 1 == 0 && BitOr(x, y) % 1 == 0;
    } else {
      HalvePow2(x, t);
      HalvePow2(y, t);
      HalvePow2(BitOr(x, y), t);
      OrHalves(x, y);
      OrHalves(x % Pow2(t), y % Pow2(t));
      OrLow(x / 2, y / 2, t - 1);
    }
  }

  lemma OrHalves(x: nat, y: nat)
    ensures BitOr(x, y) / 2 == BitOr(x / 2, y / 2)
    ensures BitOr(x, y) % 2 == Bit(x % 2 == 1 || y % 2 == 1)
  {}

  lemma {:induction false} AndSelf(x: nat)
    ensures BitAnd(x, x) == x
  {
    if x > 0 { AndSelf(x / 2); }
  }

  lemma {:induction false} AndCommutes(x: nat, y: nat)
    ensures BitAnd(x, y) == BitAnd(y, x)
  {
    if x > 0 && y > 0 { AndCommutes(x / 2, y / 2); }
  }

  lemma {:induction false} OrCommutes(x: nat, y: nat)
    ensures BitOr(x, y) == BitOr(y, x)
  {
    if x > 0 && y > 0 { OrCommutes(x / 2, y / 2); }
  }

  /** Complement of a word. */
  function NotW(x: Limb): Limb { B - 1 - x }

  lemma AndOnes(x: Limb)
    ensures BitAnd(x, B - 1) == x
  {
    AndMask(x, biL);
    ModSmall(x, B);
  }

  // ---------- shifts ----------

  function ShlW(x: Limb, t: nat): Limb { (x * Pow2(t)) % B }

  function ShrW(x: Limb, t: nat): (r: Limb)
  {
    ShrFits(x, t);
    x / Pow2(t)
  }

  lemma ShrFits(x: nat, t: nat)
    ensures 0 <= x / Pow2(t) <= x
  {
    DivModFacts(x, Pow2(t));
    if x / Pow2(t) > x {
      MulMono(1, Pow2(t), x + 1);
      MulMono(x + 1, x / Pow2(t), Pow2(t));
    }
    if x / Pow2(t) < 0 {
      MulMono(x / Pow2(t), -1, Pow2(t));
    }
  }

  /** A left shift keeps the low bits, moved up, and leaves zeros below. */
  lemma ShlSplit(x: Limb, t: nat)
    requires t <= biL
    ensures x * Pow2(t) == ShlW(x, t) + (x / Pow2(biL - t)) * B
    ensures ShlW(x, t) % Pow2(t) == 0
    ensures x / Pow2(biL - t) < Pow2(t)
  {
    var p, q := Pow2(t), Pow2(biL - t);
    Pow2Add(t, biL - t);
    SplitProduct(x, p, q);
    DivModUnique(x * p, x / q, (x % q) * p, B);
    DivModUnique((x % q) * p, x % q, 0, p);
    DivLess(x, q, p);
  }
}
