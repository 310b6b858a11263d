/** The branch-free primitives of constant_time.c, and the plain conditionals they stand for. A
    word of w bits is a number below 2^w, with every wrap-around written out. */
module ConstantTime {
  import opened Arith
  import opened Words

  /** Bits of a size_t; an unsigned int has 32. */
  const sizeL: WordBits

  type Uint = x: nat | x < Pow2(32)
  type Size = x: nat | x < Pow2(sizeL)

  function Minus(x: nat, y: nat, w: nat): (r: nat)
    requires x < Pow2(w) && y < Pow2(w)
    ensures r == if x >= y then x - y else x - y + Pow2(w)
  {
    Wrapped(x - y, Pow2(w));
    (x - y) % Pow2(w)
  }

  lemma Wrapped(d: int, p: int)
    requires -p < d < p
    ensures d % p == if d >= 0 then d else d + p
  {
    if d >= 0 { ModSmall(d, p); } else { DivModUnique(d, -1, d + p, p); }
  }

  function Complement(v: nat, w: nat): nat
    requires v < Pow2(w)
  {
    Pow2(w) - 1 - v
  }

  // ---------- masks ----------

  /** (v | -v) >> (w - 1): the top bit of a word or of its negation. */
  function NonZeroBit(v: nat, w: nat): (r: nat)
    requires 0 < w && v < Pow2(w)
    ensures r == Bit(v != 0)
  {
    NonZeroTop(v, w);
    BitOr(v, Minus(0, v, w)) / Pow2(w - 1)
  }

  lemma NonZeroTop(v: nat, w: nat)
    requires 0 < w && v < Pow2(w)
    ensures BitOr(v, Minus(0, v, w)) / Pow2(w - 1) == Bit(v != 0)
  {
    hide Pow2, BitOr;
    var t := w - 1;
    Pow2Add(t, 1);
    Pow2Values();
    TopOfOr(v, Minus(0, v, w), t);
    TopBitValue(BitOr(v, Minus(0, v, w)), Pow2(t));
  }

  /** mbedtls_ct_uint_mask, mbedtls_ct_size_mask and mbedtls_ct_mpi_uint_mask, which differ in
      the width only: all ones for a nonzero value. */
  function Mask(v: nat, w: nat): (m: nat)
    requires 0 < w && v < Pow2(w)
    ensures m == if v != 0 then Pow2(w) - 1 else 0
  {
    Pow2StrictMono(0, w);
    Minus(0, NonZeroBit(v, w), w)
  }

  function UintMask(v: Uint): Uint { Mask(v, 32) }

  function SizeMask(v: Size): Size { Mask(v, sizeL) }

  function MpiUintMask(v: Limb): Limb { Mask(v, biL) }

  /** The selection by a mask and its complement. */
  lemma SelectByMask(a: nat, b: nat, mask: nat, w: nat)
    requires a < Pow2(w) && b < Pow2(w) && (mask == 0 || mask == Pow2(w) - 1)
    ensures BitOr(BitAnd(mask, a), BitAnd(Complement(mask, w), b)) == if mask != 0 then a else b
  {
    hide Pow2, BitAnd, BitOr;
    AndAll(a, w);
    AndAll(b, w);
    OrZero(a);
    OrZero(b);
    if Pow2(w) == 1 { OrZero(0); }
  }

  /** AND with all ones and with none. */
  lemma AndAll(a: nat, w: nat)
    requires a < Pow2(w)
    ensures BitAnd(Pow2(w) - 1, a) == a && BitAnd(a, Pow2(w) - 1) == a
    ensures BitAnd(0, a) == 0 && BitAnd(a, 0) == 0
  {
    hide Pow2;
    AndMask(a, w);
    ModSmall(a, Pow2(w));
    AndCommutes(a, Pow2(w) - 1);
  }

  /** mbedtls_ct_uint_if. */
  function UintIf(condition: Uint, if1: Uint, if0: Uint): (r: Uint)
    ensures r == if condition != 0 then if1 else if0
  {
    SelectByMask(if1, if0, UintMask(condition), 32);
    BitOr(BitAnd(UintMask(condition), if1), BitAnd(Complement(UintMask(condition), 32), if0))
  }

  // ---------- comparisons ----------

  /** mbedtls_ct_size_bool_eq. */
  function SizeBoolEq(x: Size, y: Size): (r: nat)
    ensures r == Bit(x == y)
  {
    DifferenceFits(x, y);
    BitXor(1, NonZeroBit(BitXor(x, y), sizeL))
  }

  lemma DifferenceFits(x: Size, y: Size)
    ensures BitXor(x, y) < Pow2(sizeL) && (BitXor(x, y) == 0 <==> x == y)
    ensures BitXor(1, 0) == 1 && BitXor(1, 1) == 0
  {
    TopOfXor(x, y, sizeL - 1);
    XorZero(x, y);
  }

  /** mbedtls_ct_size_mask_lt: the sign of the wrapping difference, spread over a mask. */
  function SizeMaskLt(x: Size, y: Size): Size {
    SignFits(Minus(x, y, sizeL));
    SizeMask(Minus(x, y, sizeL) / Pow2(sizeL - 1))
  }

  /** mbedtls_ct_size_mask_ge. */
  function SizeMaskGe(x: Size, y: Size): Size { Complement(SizeMaskLt(x, y), sizeL) }

  lemma SignFits(d: Size)
    ensures d / Pow2(sizeL - 1) == Bit(d >= Pow2(sizeL - 1)) < Pow2(sizeL)
  {
    hide Pow2;
    SizeRange();
    TopBitValue(d, Pow2(sizeL - 1));
  }

  lemma SizeRange()
    ensures Pow2(sizeL) == 2 * Pow2(sizeL - 1) && Pow2(sizeL - 1) > 256
  {
    hide Pow2;
    Pow2Add(sizeL - 1, 1);
    Pow2StrictMono(8, sizeL - 1);
    Pow2Values();
  }

  /** The masks are the comparisons exactly for operands that are not too far apart: at most
      half the range upwards, less than half the range downwards. */
  lemma SizeMaskLtCorrect(x: Size, y: Size)
    ensures var near := if x < y then y - x <= Pow2(sizeL - 1) else x - y < Pow2(sizeL - 1);
      (SizeMaskLt(x, y) == (if x < y then Pow2(sizeL) - 1 else 0) <==> near)
      && (SizeMaskGe(x, y) == (if x >= y then Pow2(sizeL) - 1 else 0) <==> near)
  {
    hide Pow2, Minus;
    SizeRange();
    SignFits(Minus(x, y, sizeL));
  }

  /** Sizes too far apart: half the range counts as less than 0. */
  lemma SizeMaskLtWrong()
    ensures Pow2(sizeL - 1) < Pow2(sizeL) && SizeMaskLt(Pow2(sizeL - 1), 0) == Pow2(sizeL) - 1
  {
    hide Pow2;
    SizeRange();
    SignFits(Pow2(sizeL - 1));
  }

  /** The sizes and byte values that the padding readers compare are near enough. */
  lemma SizeMaskOfBytes(x: Size, y: Size)
    requires x < 256 && y < 256
    ensures SizeMaskLt(x, y) == if x < y then Pow2(sizeL) - 1 else 0
    ensures SizeMaskGe(x, y) == if x >= y then Pow2(sizeL) - 1 else 0
  {
    hide SizeMaskLt, SizeMaskGe, Pow2;
    SizeRange();
    SizeMaskLtCorrect(x, y);
  }

  // ---------- character ranges ----------

  /** 0xff if c lies between low and high. */
  function MaskOfRange(low: bv8, high: bv8, c: bv8): bv8 {
    var lowMask := ((c as bv32) - (low as bv32)) >> 8;
    var highMask := ((high as bv32) - (c as bv32)) >> 8;
    ((!(lowMask | highMask)) & 0xFF) as bv8
  }

  lemma MaskOfRangeCorrect(low: bv8, high: bv8, c: bv8)
    ensures MaskOfRange(low, high, c) == if low <= c && c <= high then 0xFF else 0
  {}

  // ---------- base64 digits ----------

  function EncChar(v: bv8): bv8 {
    (MaskOfRange(0, 25, v) & (0x41 + v)) | (MaskOfRange(26, 51, v) & (0x61 + v - 26))
    | (MaskOfRange(52, 61, v) & (0x30 + v - 52)) | (MaskOfRange(62, 62, v) & 0x2B)
    | (MaskOfRange(63, 63, v) & 0x2F)
  }

  /** One more than the value of the digit; 0 for any other character. */
  function DecPlusOne(c: bv8): bv8 {
    (MaskOfRange(0x41, 0x5A, c) & (c - 0x41 + 1)) | (MaskOfRange(0x61, 0x7A, c) & (c - 0x61 + 27))
    | (MaskOfRange(0x30, 0x39, c) & (c - 0x30 + 53)) | (MaskOfRange(0x2B, 0x2B, c) & (c - 0x2B + 63))
    | (MaskOfRange(0x2F, 0x2F, c) & (c - 0x2F + 64))
  }
}
