/** CMAC (cmac.c) against the whole-message definition of section 2.4 of RFC 4493, for
    blocks of 8 and of 16 bytes. */
module Cmac {
  import opened Arith
  import opened Blocks

  // ---------- doubling ----------

  /** The reduction constants R_64 and R_128. */
  function Reduction(): bv8 { if Bs == 16 then 0x87 else 0x1B }

  /** Multiplication by u in GF(2^64) or GF(2^128), section 5.3 of NIST SP 800-38B: shift left,
      and reduce when the top bit falls out. */
  function Double(b: Block): Block {
    var shifted := ToBytes(2 * Value(b) % Pow2(8 * Bs), Bs);
    if Value(b) >= Pow2(8 * Bs - 1) then shifted[Bs - 1 := shifted[Bs - 1] ^ Reduction()] else shifted
  }

  lemma ShiftByte(x: bv8, c: bv8)
    requires c <= 1
    ensures ((x << 1) | c) as nat + 256 * ((x >> 7) as nat) == 2 * (x as nat) + c as nat
    ensures x >> 7 <= 1
  {
    assert ((x << 1) | c) as nat == 2 * (x as nat) % 256 + c as nat;
    assert (x >> 7) as nat == (x as nat) / 128;
  }

  /** One byte further up: the low bytes of the doubled number, and the bit carried out. */
  lemma ShiftStep(x: bv8, tail: Bytes, y: bv8, out: Bytes, c: bv8)
    requires |out| == |tail| && c <= 1 && y == (x << 1) | c
    requires Value(out) + (c as nat) * Pow2(8 * |tail|) == 2 * Value(tail)
    ensures Value([y] + out) + ((x >> 7) as nat) * Pow2(8 * (|tail| + 1)) == 2 * Value([x] + tail)
  {
    hide Pow2, Value;
    var p := Pow2(8 * |tail|);
    ShiftByte(x, c);
    ValueCons(x, tail);
    ValueCons(y, out);
    ByteWeight(|tail|);
    ShiftSum(x as nat, y as nat, c as nat, (x >> 7) as nat, p, Value(out), Value(tail));
  }

  lemma ShiftSum(x: int, y: int, c: int, h: int, p: int, o: int, t: int)
    requires y + 256 * h == 2 * x + c && o + c * p == 2 * t
    ensures y * p + o + h * (256 * p) == 2 * (x * p + t)
  {
    MulDist(y, 256 * h, p);
    MulDist(2 * x, c, p);
    MulAssoc(h, 256, p);
    MulAssoc(2, x, p);
  }

  method MultiplyByU(output: array<bv8>, input: array<bv8>)
    requires output.Length == input.Length == Bs && output != input
    modifies output
    ensures output[..] == Double(input[..])
  {
    hide Pow2, Value, ToBytes;
    var overflow: bv8 := 0;
    var i := Bs;
    EmptyValue();
    assert input[Bs..] == [] && output[Bs..] == [];
    while i > 0
      invariant 0 <= i <= Bs && overflow <= 1
      invariant Value(output[i..]) + (overflow as nat) * Pow2(8 * |input[i..]|) == 2 * Value(input[i..])
      invariant i < Bs ==> overflow == input[i] >> 7
    {
      i := i - 1;
      ghost var out, tail := output[i + 1..], input[i + 1..];
      output[i] := (input[i] << 1) | overflow;
      assert output[i..] == [output[i]] + out && input[i..] == [input[i]] + tail;
      ShiftStep(input[i], tail, output[i], out, overflow);
      ShiftByte(input[i], overflow);
      overflow := input[i] >> 7;
    }
    assert output[0..] == output[..] && input[0..] == input[..];
    ShiftedBlock(input[..], output[..], overflow);
    var mask: bv8 := 0 - (input[0] >> 7);
    MaskedByte(Reduction(), input[0], output[Bs - 1]);
    ghost var was := output[..];
    output[Bs - 1] := output[Bs - 1] ^ (Reduction() & mask);
    assert output[..] == was[Bs - 1 := output[Bs - 1]];
  }

  lemma MaskedByte(r: bv8, x: bv8, y: bv8)
    ensures y ^ (r & (0 - (x >> 7))) == if x >> 7 == 1 then y ^ r else y
  {}

  lemma ShiftedBlock(input: Block, output: Block, c: bv8)
    requires c <= 1 && Value(output) + (c as nat) * Pow2(8 * Bs) == 2 * Value(input)
    ensures output == ToBytes(2 * Value(input) % Pow2(8 * Bs), Bs)
    ensures c == 1 <==> Value(input) >= Pow2(8 * Bs - 1)
  {
    hide Pow2, Value, ToBytes;
    ValueBound(output);
    ToBytesValue(output);
    DivModUnique(2 * Value(input), c as nat, Value(output), Pow2(8 * Bs));
    Pow2Add(8 * Bs - 1, 1);
    Pow2Values();
  }

  // ---------- the polynomials ----------

  /** The polynomial over GF(2) of a block, the first byte highest: coefficient 8 i + b is bit b of
      the byte with i bytes behind it. */
  function Poly(x: Block): (p: seq<bool>)
    ensures |p| == 8 * Bs && forall k :: 0 <= k < 8 * Bs ==> p[k] == BitOf(x[Bs - 1 - k / 8], k % 8)
  {
    seq(8 * Bs, k requires 0 <= k < 8 * Bs => BitOf(x[Bs - 1 - k / 8], k % 8))
  }

  /** Multiplication by u modulo u^128 + u^7 + u^2 + u + 1 or u^64 + u^4 + u^3 + u + 1 (section
      5.3 of NIST SP 800-38B). */
  function TimesU(p: seq<bool>): (r: seq<bool>)
    requires |p| == 8 * Bs
    ensures |r| == 8 * Bs
    ensures forall k :: 0 <= k < 8 * Bs ==>
      r[k] == ((k > 0 && p[k - 1]) != (p[8 * Bs - 1] && k in if Bs == 16 then {0, 1, 2, 7} else {0, 1, 3, 4}))
  {
    seq(8 * Bs, k requires 0 <= k < 8 * Bs =>
      (k > 0 && p[k - 1]) != (p[8 * Bs - 1] && k in if Bs == 16 then {0, 1, 2, 7} else {0, 1, 3, 4}))
  }

  lemma PolyInjective(x: Block, y: Block)
    requires Poly(x) == Poly(y)
    ensures x == y
  {
    hide BitOf;
    forall i | 0 <= i < Bs ensures x[i] == y[i] {
      forall b | 0 <= b < 8 ensures BitOf(x[i], b) == BitOf(y[i], b) {
        var k := 8 * (Bs - 1 - i) + b;
        assert k / 8 == Bs - 1 - i && k % 8 == b && Poly(x)[k] == Poly(y)[k];
      }
      SameBits(x[i], y[i]);
    }
  }

  function TopBit(s: Bytes): bv8 { if s == [] then 0 else s[0] >> 7 }

  /** Every byte shifted left, taking in the top bit of the one behind it. */
  function ShiftedLeft(s: Bytes): (r: Bytes)
    ensures |r| == |s|
  {
    if s == [] then [] else [(s[0] << 1) | TopBit(s[1..])] + ShiftedLeft(s[1..])
  }

  lemma {:induction false} ShiftedLeftAt(s: Bytes, i: nat)
    requires i < |s|
    ensures ShiftedLeft(s)[i] == (s[i] << 1) | (if i + 1 < |s| then s[i + 1] >> 7 else 0)
    decreases |s|
  {
    if i > 0 { ShiftedLeftAt(s[1..], i - 1); }
  }

  lemma {:induction false} ShiftedLeftValue(s: Bytes)
    ensures TopBit(s) <= 1
    ensures Value(ShiftedLeft(s)) + (TopBit(s) as nat) * Pow2(8 * |s|) == 2 * Value(s)
    decreases |s|
  {
    hide Pow2, Value;
    if s == [] {
      EmptyValue();
    } else {
      var tail := s[1..];
      ShiftedLeftValue(tail);
      assert s == [s[0]] + tail;
      ShiftStep(s[0], tail, (s[0] << 1) | TopBit(tail), ShiftedLeft(tail), TopBit(tail));
      ShiftByte(s[0], TopBit(tail));
    }
  }

  /** The doubled block, byte by byte. */
  lemma DoubleBytes(b: Block)
    ensures var top := if b[0] >> 7 == 1 then Reduction() else 0;
            Double(b) == ShiftedLeft(b)[Bs - 1 := ShiftedLeft(b)[Bs - 1] ^ top]
  {
    hide Pow2, Value, ToBytes, ShiftedLeft;
    ShiftedLeftValue(b);
    ShiftedBlock(b, ShiftedLeft(b), TopBit(b));
    NothingAdded(ShiftedLeft(b)[Bs - 1]);
  }

  lemma NothingAdded(b: bv8)
    ensures b ^ 0 == b
  {}

  /** Doubling a block is multiplication by u. */
  lemma DoubleIsTimesU(b: Block)
    ensures Poly(Double(b)) == TimesU(Poly(b))
  {
    hide Double, BitOf, ShiftedLeft;
    DoubleBytes(b);
    forall k | 0 <= k < 8 * Bs ensures Poly(Double(b))[k] == TimesU(Poly(b))[k] {
      DoubleBit(b, k / 8, k % 8);
    }
  }

  lemma DoubleBit(x: Block, i: nat, b: nat)
    requires i < Bs && b < 8
    requires var top := if x[0] >> 7 == 1 then Reduction() else 0;
             Double(x) == ShiftedLeft(x)[Bs - 1 := ShiftedLeft(x)[Bs - 1] ^ top]
    ensures var k, p := 8 * i + b, Poly(x);
            BitOf(Double(x)[Bs - 1 - i], b)
              == ((k > 0 && p[k - 1]) != (p[8 * Bs - 1] && k in if Bs == 16 then {0, 1, 2, 7} else {0, 1, 3, 4}))
  {
    hide Double, BitOf, ShiftedLeft, Poly, Reduction;
    PolyAt(x, Bs - 1, 7);
    BitBelow(x, i, b);
    if i == 0 { LastByteBit(x, b); } else { InnerByteBit(x, i, b); }
  }

  /** The bit that moves to bit b of the byte with i bytes behind it. */
  function Below(x: Block, i: nat, b: nat): bool
    requires i < Bs && b < 8
  {
    if b > 0 then BitOf(x[Bs - 1 - i], b - 1) else i > 0 && BitOf(x[Bs - i], 7)
  }

  lemma BitBelow(x: Block, i: nat, b: nat)
    requires i < Bs && b < 8
    ensures var k := 8 * i + b; Below(x, i, b) == (k > 0 && Poly(x)[k - 1])
  {
    hide BitOf, Poly;
    if b > 0 { PolyAt(x, i, b - 1); } else if i > 0 { PolyAt(x, i - 1, 7); }
  }

  lemma InnerByteBit(x: Block, i: nat, b: nat)
    requires 0 < i < Bs && b < 8
    ensures BitOf(ShiftedLeft(x)[Bs - 1 - i], b) == Below(x, i, b)
  {
    hide BitOf, ShiftedLeft;
    ShiftedLeftAt(x, Bs - 1 - i);
    ShiftedBits(x[Bs - 1 - i], x[Bs - i], b);
  }

  lemma LastByteBit(x: Block, b: nat)
    requires b < 8
    ensures BitOf(ShiftedLeft(x)[Bs - 1] ^ (if x[0] >> 7 == 1 then Reduction() else 0), b)
      == (Below(x, 0, b) != (BitOf(x[0], 7) && b in if Bs == 16 then {0, 1, 2, 7} else {0, 1, 3, 4}))
  {
    hide BitOf, ShiftedLeft, Reduction;
    ShiftedLeftAt(x, Bs - 1);
    LastBits(x[Bs - 1], x[0], b);
  }

  lemma PolyAt(x: Block, i: nat, b: nat)
    requires i < Bs && b < 8
    ensures 8 * i + b < 8 * Bs && Poly(x)[8 * i + b] == BitOf(x[Bs - 1 - i], b)
  {
    hide BitOf;
    assert (8 * i + b) / 8 == i && (8 * i + b) % 8 == b;
  }

  /** The bits of the last byte, where the reduction is added. */
  lemma LastBits(x: bv8, first: bv8, b: nat)
    requires b < 8
    ensures BitOf(((x << 1) | 0) ^ (if first >> 7 == 1 then Reduction() else 0), b)
      == ((b > 0 && BitOf(x, b - 1))
          != (BitOf(first, 7) && b in if Bs == 16 then {0, 1, 2, 7} else {0, 1, 3, 4}))
  {
    hide BitOf;
    var y := (x << 1) | 0;
    var top: bv8 := if first >> 7 == 1 then Reduction() else 0;
    NothingBelow(x);
    ShiftedBits(x, 0, b);
    SummedBits(y, top, b);
    ReductionBits(b);
    FirstBit(first);
  }

  lemma NothingBelow(x: bv8)
    ensures (x << 1) | 0 == (x << 1) | (0 >> 7) && !BitOf(0, 7)
  {}

  lemma ReductionBits(b: nat)
    requires b < 8
    ensures BitOf(Reduction(), b) == (b in if Bs == 16 then {0, 1, 2, 7} else {0, 1, 3, 4}) && !BitOf(0, b)
  {}

  lemma FirstBit(x: bv8)
    ensures BitOf(x, 7) == (x >> 7 == 1)
  {}

  // ---------- the whole-message definition ----------

  function ZeroBlock(): Block { Zeros(Bs) }

  /** The chain over whole blocks, from state x. */
  function Absorb(c: BlockCipher, x: Block, p: Bytes): Block
    requires Sound(c, Bs) && |p| % Bs == 0
    decreases |p|
  {
    if p == [] then x
    else
      WholeBlocks(|p|, 0);
      Absorb(c, c.enc(Xor(p[..Bs], x)), p[Bs..])
  }

  function K1(c: BlockCipher): Block requires Sound(c, Bs) { Double(c.enc(ZeroBlock())) }

  function K2(c: BlockCipher): Block requires Sound(c, Bs) { Double(K1(c)) }

  /** A message's last block: the final 1 to Bs bytes, nothing for the empty message. */
  function LastLength(n: nat): nat {
    if n == 0 then 0 else if n % Bs == 0 then Bs else n % Bs
  }

  lemma LastLengthFacts(n: nat)
    ensures LastLength(n) <= n && LastLength(n) <= Bs && (n - LastLength(n)) % Bs == 0
    ensures n > 0 ==> LastLength(n) > 0
  {
    var q := n / Bs;
    DivModFacts(n, Bs);
    DivModUnique(q * Bs, q, 0, Bs);
    MulDist(q, 1, Bs);
    DivModUnique((q - 1) * Bs, q - 1, 0, Bs);
    ModSmall(0, Bs);
    if n > 0 && n % Bs == 0 { WholeBlocks(n, 0); }
    if n < Bs { ModSmall(n, Bs); }
  }

  function Padded(last: Bytes): Block
    requires |last| < Bs
  {
    last + [0x80] + Zeros(Bs - |last| - 1)
  }

  /** The last block, masked with K1 if it is complete and padded and masked with K2 if not. */
  function MaskedLast(c: BlockCipher, last: Bytes): Block
    requires Sound(c, Bs) && |last| <= Bs
  {
    if |last| == Bs then Xor(last, K1(c)) else Xor(Padded(last), K2(c))
  }

  function Mac(c: BlockCipher, m: Bytes): Block
    requires Sound(c, Bs)
  {
    LastLengthFacts(|m|);
    var n := |m| - LastLength(|m|);
    c.enc(Xor(MaskedLast(c, m[n..]), Absorb(c, ZeroBlock(), m[..n])))
  }

  lemma {:induction false} AbsorbBlock(c: BlockCipher, x: Block, p: Bytes, b: Block)
    requires Sound(c, Bs) && |p| % Bs == 0
    ensures (|p| + Bs) % Bs == 0 && Absorb(c, x, p + b) == c.enc(Xor(b, Absorb(c, x, p)))
    decreases |p|
  {
    hide Absorb, Xor;
    WholeBlocks(|p|, Bs);
    DivModUnique(Bs, 1, 0, Bs);
    AbsorbUnfold(c, x, p + b);
    if p == [] {
      assert p + b == b && b[..Bs] == b && b[Bs..] == [];
      AbsorbNothing(c, x);
      AbsorbNothing(c, c.enc(Xor(b, x)));
    } else {
      AbsorbUnfold(c, x, p);
      var b': Block, p' := c.enc(Xor(p[..Bs], x)), p[Bs..];
      assert (p + b)[..Bs] == p[..Bs] && (p + b)[Bs..] == p' + b;
      AbsorbBlock(c, b', p', b);
    }
  }

  lemma AbsorbNothing(c: BlockCipher, x: Block)
    requires Sound(c, Bs)
    ensures Absorb(c, x, []) == x
  {}

  lemma AbsorbUnfold(c: BlockCipher, x: Block, p: Bytes)
    requires Sound(c, Bs) && |p| % Bs == 0 && p != []
    ensures |p| >= Bs && (|p| - Bs) % Bs == 0
    ensures Absorb(c, x, p) == Absorb(c, c.enc(Xor(p[..Bs], x)), p[Bs..])
  {
    WholeBlocks(|p|, 0);
  }

  // ---------- the same by the book ----------

  /** How long the incomplete last block is, and that what stands before it is whole blocks. */
  lemma Remainder(n: nat)
    ensures n % Bs <= n && n % Bs < Bs && (n - n % Bs) % Bs == 0 && (n - n % Bs + Bs) % Bs == 0
    ensures n > 0 && n % Bs == 0 ==> n >= Bs && (n - Bs) % Bs == 0
  {
    DivModFacts(n, Bs);
    DivModUnique(n - n % Bs, n / Bs, 0, Bs);
    DivMono(0, n, Bs);
    ModSmall(0, Bs);
    MulMono(0, n / Bs, Bs);
    DivModShift(1, n - n % Bs, Bs);
    if n > 0 && n % Bs == 0 { WholeMultiple(n, Bs); }
  }

  /** The message with its last block summed with k1 if it is complete, and else completed by a
      one bit and zeros and summed with k2. */
  function Completed(m: Bytes, k1: Block, k2: Block): (x: Bytes)
    ensures |x| % Bs == 0
  {
    Remainder(|m|);
    var r := |m| % Bs;
    if m != [] && r == 0 then m[..|m| - Bs] + Xor(m[|m| - Bs..], k1)
    else m[..|m| - r] + Xor(m[|m| - r..] + [0x80] + Zeros(Bs - 1 - r), k2)
  }

  /** Section 2.4 of RFC 4493: the tag is the CBC-MAC of the completed message, with u times the
      encrypted zero block and u times that again as the subkeys. */
  ghost predicate IsCmac(c: BlockCipher, m: Bytes, tag: Bytes)
    requires Sound(c, Bs)
  {
    forall k1: Block, k2: Block :: Poly(k1) == TimesU(Poly(c.enc(Zeros(Bs)))) && Poly(k2) == TimesU(Poly(k1)) ==>
      tag == CbcMac(c, Bs, Completed(m, k1, k2))
  }

  lemma {:induction false} AbsorbIsCbc(c: BlockCipher, p: Bytes)
    requires Sound(c, Bs) && |p| % Bs == 0
    ensures Absorb(c, ZeroBlock(), p) == CbcMac(c, Bs, p)
    decreases |p|
  {
    hide Absorb, Xor, CbcMac;
    if p == [] {
      AbsorbNothing(c, ZeroBlock());
      CbcNothing(c, Bs);
    } else {
      WholeMultiple(|p|, Bs);
      var g, b := p[..|p| - Bs], p[|p| - Bs..];
      assert p == g + b;
      AbsorbIsCbc(c, g);
      AbsorbBlock(c, ZeroBlock(), g, b);
      CbcStep(c, Bs, g, b);
    }
  }

  /** The subkeys are determined by their polynomials. */
  lemma SubkeysAre(c: BlockCipher, k1: Block, k2: Block)
    requires Sound(c, Bs)
    requires Poly(k1) == TimesU(Poly(c.enc(Zeros(Bs)))) && Poly(k2) == TimesU(Poly(k1))
    ensures k1 == K1(c) && k2 == K2(c)
  {
    hide Poly, TimesU, Double;
    DoubleIsTimesU(c.enc(Zeros(Bs)));
    DoubleIsTimesU(k1);
    PolyInjective(k1, K1(c));
    PolyInjective(k2, K2(c));
  }

  lemma MacIsCmac(c: BlockCipher, m: Bytes)
    requires Sound(c, Bs)
    ensures IsCmac(c, m, Mac(c, m))
  {
    hide Poly, TimesU, Mac, CbcMac, K1, K2, Completed;
    forall k1: Block, k2: Block | Poly(k1) == TimesU(Poly(c.enc(Zeros(Bs)))) && Poly(k2) == TimesU(Poly(k1))
      ensures Mac(c, m) == CbcMac(c, Bs, Completed(m, k1, k2))
    {
      SubkeysAre(c, k1, k2);
      MacIsChained(c, m);
      CompletedIs(c, m);
    }
  }

  lemma MacIsChained(c: BlockCipher, m: Bytes)
    requires Sound(c, Bs)
    ensures LastLength(|m|) <= |m| && LastLength(|m|) <= Bs
    ensures var n := |m| - LastLength(|m|);
            var x := m[..n] + MaskedLast(c, m[n..]);
            |x| % Bs == 0 && Mac(c, m) == CbcMac(c, Bs, x)
  {
    hide Absorb, Xor, CbcMac, MaskedLast, LastLength;
    LastLengthFacts(|m|);
    var n := |m| - LastLength(|m|);
    AbsorbIsCbc(c, m[..n]);
    CbcStep(c, Bs, m[..n], MaskedLast(c, m[n..]));
  }

  lemma CompletedIs(c: BlockCipher, m: Bytes)
    requires Sound(c, Bs)
    ensures LastLength(|m|) <= |m| && LastLength(|m|) <= Bs
    ensures var n := |m| - LastLength(|m|); Completed(m, K1(c), K2(c)) == m[..n] + MaskedLast(c, m[n..])
  {
    hide Xor, K1, K2, LastLength, MaskedLast, Completed;
    LastLengthFacts(|m|);
    LastLengthIs(|m|);
    if m != [] && |m| % Bs == 0 {
      CompletedWhole(m, K1(c), K2(c));
      MaskedWhole(c, m[|m| - Bs..]);
    } else {
      CompletedPart(m, K1(c), K2(c));
      MaskedPart(c, m[|m| - |m| % Bs..]);
    }
  }

  lemma LastLengthIs(n: nat)
    ensures LastLength(n) == if n > 0 && n % Bs == 0 then Bs else n % Bs
  {
    ModSmall(0, Bs);
  }

  lemma CompletedWhole(m: Bytes, k1: Block, k2: Block)
    requires m != [] && |m| % Bs == 0
    ensures |m| >= Bs && Completed(m, k1, k2) == m[..|m| - Bs] + Xor(m[|m| - Bs..], k1)
  {
    hide Xor;
    Remainder(|m|);
  }

  lemma CompletedPart(m: Bytes, k1: Block, k2: Block)
    requires m == [] || |m| % Bs != 0
    ensures |m| % Bs <= |m| && |m| % Bs < Bs
    ensures var last := m[|m| - |m| % Bs..];
            Completed(m, k1, k2) == m[..|m| - |m| % Bs] + Xor(Padded(last), k2)
  {
    hide Xor;
    Remainder(|m|);
  }

  lemma MaskedWhole(c: BlockCipher, last: Block)
    requires Sound(c, Bs)
    ensures MaskedLast(c, last) == Xor(last, K1(c))
  {
    hide Xor, K1, K2;
  }

  lemma MaskedPart(c: BlockCipher, last: Bytes)
    requires Sound(c, Bs) && |last| < Bs
    ensures MaskedLast(c, last) == Xor(Padded(last), K2(c))
  {
    hide Xor, K1, K2, Padded;
  }

  lemma SubkeysExist(c: BlockCipher)
    requires Sound(c, Bs)
    ensures Poly(K1(c)) == TimesU(Poly(c.enc(Zeros(Bs)))) && Poly(K2(c)) == TimesU(Poly(K1(c)))
  {
    hide Poly, TimesU, Double;
    DoubleIsTimesU(c.enc(Zeros(Bs)));
    DoubleIsTimesU(K1(c));
  }

  // ---------- the code ----------

  method XorBlock(output: array<bv8>, a: Block, b: Block)
    requires output.Length == Bs
    modifies output
    ensures output[..] == Xor(a, b)
  {
    for i := 0 to Bs
      invariant forall k :: 0 <= k < i ==> output[k] == a[k] ^ b[k]
    {
      output[i] := a[i] ^ b[i];
    }
  }

  method Pad(padded: array<bv8>, last: Bytes)
    requires padded.Length == Bs && |last| < Bs
    modifies padded
    ensures padded[..] == Padded(last)
  {
    for j := 0 to Bs
      invariant forall k :: 0 <= k < j ==> padded[k] == Padded(last)[k]
    {
      if j < |last| {
        padded[j] := last[j];
      } else if j == |last| {
        padded[j] := 0x80;
      } else {
        padded[j] := 0;
      }
    }
  }

  lemma ZeroBlockIs()
    ensures ZeroBlock() == Zeros(Bs)
  {}

  method ZeroFill(a: array<bv8>)
    modifies a
    ensures a[..] == Zeros(a.Length)
  {
    forall i | 0 <= i < a.Length { a[i] := 0; }
    assert a[..] == Zeros(a.Length);
  }

  method GenerateSubkeys(c: BlockCipher, k1: array<bv8>, k2: array<bv8>)
    requires Sound(c, Bs) && k1.Length == k2.Length == Bs && k1 != k2
    modifies k1, k2
    ensures k1[..] == K1(c) && k2[..] == K2(c)
  {
    hide Double;
    var l := new bv8[Bs](_ => 0);
    assert l[..] == ZeroBlock();
    var e := c.enc(l[..]);
    forall i | 0 <= i < Bs { l[i] := e[i]; }
    assert l[..] == e;
    MultiplyByU(k1, l);
    MultiplyByU(k2, k1);
  }

  /** The state of the chain after the whole blocks done. */
  ghost predicate Absorbed(c: BlockCipher, done: Bytes, state: Bytes) {
    Sound(c, Bs) && |done| % Bs == 0 && state == Absorb(c, ZeroBlock(), done)
  }

  lemma AbsorbedMore(c: BlockCipher, done: Bytes, state: Block, b: Block)
    requires Absorbed(c, done, state)
    ensures Absorbed(c, done + b, c.enc(Xor(b, state)))
  {
    hide Absorb, Xor;
    AbsorbBlock(c, ZeroBlock(), done, b);
  }

  lemma AbsorbedNothing(c: BlockCipher)
    requires Sound(c, Bs)
    ensures Absorbed(c, [], ZeroBlock())
  {
    ModSmall(0, Bs);
  }

  /** The bytes that wait, and those before them, when x comes behind. */
  lemma FedKept(fed: Bytes, len: nat, x: Bytes)
    requires len <= |fed|
    ensures var f := fed + x;
      f[|f| - (len + |x|)..] == fed[|fed| - len..] + x && f[..|f| - (len + |x|)] == fed[..|fed| - len]
  {}

  class CmacContext {
    const c: BlockCipher
    var state: array<bv8>
    var block: array<bv8>
    var len: nat
    ghost var fed: Bytes

    ghost function Done(): Bytes
      reads this
      requires len <= |fed|
    {
      fed[..|fed| - len]
    }

    /** The state has absorbed all but the waiting bytes. */
    ghost predicate Consistent()
      reads this, state, block
    {
      Sound(c, Bs) && state.Length == Bs && block.Length == Bs && state != block
      && len <= Bs && len <= |fed| && block[..len] == fed[|fed| - len..]
      && Absorbed(c, Done(), state[..])
    }

    /** Between calls at least one byte waits once data has arrived. */
    ghost predicate Valid()
      reads this, state, block
    {
      Consistent() && (|fed| > 0 ==> len > 0)
    }

    constructor (cipher: BlockCipher)
      requires Sound(cipher, Bs)
      ensures Valid() && fresh(state) && fresh(block) && c == cipher && fed == []
    {
      c, len, fed := cipher, 0, [];
      state := new bv8[Bs];
      block := new bv8[Bs];
      new;
      hide Valid;
      Reset();
    }

    /** Absorb one block. */
    method Step(b: Block, ghost done: Bytes)
      requires Sound(c, Bs) && state.Length == Bs && Absorbed(c, done, state[..])
      modifies state
      ensures Absorbed(c, done + b, state[..])
    {
      hide Absorbed, Xor;
      AbsorbedMore(c, done, state[..], b);
      XorBlock(state, b, state[..]);
      var e := c.enc(state[..]);
      forall i | 0 <= i < Bs { state[i] := e[i]; }
      assert state[..] == e;
    }

    /** Complete the waiting block and absorb it. */
    method FillBlock(x: Bytes)
      requires Consistent() && |x| == Bs - len
      modifies this`len, this`fed, state, block
      ensures Consistent() && len == 0 && fed == old(fed) + x
    {
      hide Absorbed, Splice;
      ghost var done, b := Done(), block[..len] + x;
      SpliceFacts(block[..], len, x);
      Store(block, len, x);
      assert block[..] == b by { assert block[..] == block[..len + |x|]; }
      Step(block[..], done);
      len := 0;
      fed := fed + x;
      assert Done() == fed == done + b;
    }

    /** Absorb a block straight from the input. */
    method TakeBlock(b: Block)
      requires Consistent() && len == 0
      modifies this`fed, state
      ensures Consistent() && fed == old(fed) + b
    {
      hide Absorbed;
      assert Done() == fed;
      Step(b, fed);
      fed := fed + b;
      assert Done() == fed;
    }

    /** Let the rest of the input wait. */
    method Keep(x: Bytes)
      requires Consistent() && len + |x| <= Bs
      modifies this`len, this`fed, block
      ensures Consistent() && len == old(len) + |x| && fed == old(fed) + x
    {
      hide Absorbed, Splice;
      SpliceFacts(block[..], len, x);
      FedKept(fed, len, x);
      Store(block, len, x);
      assert block[..len + |x|] == old(block[..len]) + x;
      len := len + |x|;
      fed := fed + x;
    }

    /** Absorb all blocks of the input but the last one, which may be partial. */
    method AbsorbBlocks(input: Bytes) returns (off: nat)
      requires Consistent() && (len == 0 || |input| <= Bs - len)
      modifies this`fed, state
      ensures Consistent() && off <= |input| && fed == old(fed) + input[..off]
      ensures len + |input| - off <= Bs && (|input| > 0 ==> off < |input|)
    {
      hide Absorbed, Consistent;
      off := 0;
      var rest := |input|;
      var n := (rest + Bs - 1) / Bs;
      var j := 1;
      LengthBound();
      BlockCount(rest);
      assert input[..0] == [];
      while j < n
        invariant Consistent() && off <= |input| && rest == |input| - off && fed == old(fed) + input[..off]
        invariant n - j + 1 == (rest + Bs - 1) / Bs
        invariant len + rest <= Bs || len == 0
        invariant rest == 0 ==> off == 0
        decreases rest
      {
        BlockCount(rest);
        assert input[..off + Bs] == input[..off] + input[off..off + Bs];
        TakeBlock(input[off..off + Bs]);
        rest := rest - Bs;
        off := off + Bs;
        j := j + 1;
      }
      BlockCount(rest);
    }

    /** Feed a chunk of any size. */
    method Update(input: Bytes)
      requires Valid()
      modifies this`len, this`fed, state, block
      ensures Valid() && fed == old(fed) + input
    {
      hide Absorbed, Consistent;
      var rest := input;
      LengthBound();
      if len > 0 && |input| > Bs - len {
        assert input == input[..Bs - len] + input[Bs - len..];
        rest := input[Bs - len..];
        FillBlock(input[..Bs - len]);
      }
      var off := AbsorbBlocks(rest);
      assert rest == rest[..off] + rest[off..];
      Keep(rest[off..]);
    }

    lemma LengthBound()
      requires Consistent()
      ensures len <= Bs && len <= |fed|
    {}

    /** The tag, after which the context is ready for the next message. */
    method Finish(output: array<bv8>)
      requires Valid() && output.Length == Bs && output != state && output != block
      modifies this`len, this`fed, state, block, output
      ensures output[..] == Mac(c, old(fed)) && IsCmac(c, old(fed), output[..])
      ensures Valid() && fed == []
    {
      hide *;
      ghost var m := fed;
      Shape();
      Compute(output);
      Reset();
      MacIsCmac(c, m);
    }

    lemma Shape()
      requires Valid()
      ensures Sound(c, Bs) && state.Length == Bs && block.Length == Bs && state != block
    {}

    method Compute(output: array<bv8>)
      requires Valid() && output.Length == Bs && output != state && output != block
      modifies state, output
      ensures output[..] == Mac(c, fed)
    {
      hide Absorbed, MaskedLast, Xor, Mac, Double, K1, K2, Padded;
      FinalStep();
      var last := LastBlock();
      Emit(last, output);
    }

    /** The tag, from what waits and what has been absorbed. */
    lemma FinalStep()
      requires Valid()
      ensures Mac(c, fed) == c.enc(Xor(MaskedLast(c, block[..len]), state[..]))
    {
      hide Absorb, MaskedLast, Xor;
      LastIs(|fed|, len);
      assert fed[..|fed| - len] == Done();
    }

    /** The masked last block. */
    method LastBlock() returns (m: Block)
      requires Consistent()
      ensures m == MaskedLast(c, block[..len])
    {
      hide Absorbed, Double, K1, K2, Xor, Padded;
      var k1 := new bv8[Bs];
      var k2 := new bv8[Bs];
      var last := new bv8[Bs];
      GenerateSubkeys(c, k1, k2);
      if len < Bs {
        Pad(last, block[..len]);
        XorBlock(last, last[..], k2[..]);
      } else {
        assert block[..len] == block[..];
        XorBlock(last, block[..], k1[..]);
      }
      m := last[..];
    }

    /** Encrypt the last block into the output. */
    method Emit(last: Block, output: array<bv8>)
      requires Consistent() && output.Length == Bs && output != state && output != block
      modifies state, output
      ensures output[..] == c.enc(Xor(last, old(state[..])))
    {
      hide Absorbed, Xor;
      XorBlock(state, last, state[..]);
      var e := c.enc(state[..]);
      forall i | 0 <= i < Bs { state[i] := e[i]; }
      assert state[..] == e;
      forall i | 0 <= i < Bs { output[i] := state[i]; }
      assert output[..] == e;
    }

    method Reset()
      requires Sound(c, Bs) && state.Length == Bs && block.Length == Bs && state != block
      modifies this`len, this`fed, state, block
      ensures Valid() && fed == []
    {
      hide *;
      len := 0;
      ZeroFill(block);
      ZeroFill(state);
      fed := [];
      AbsorbedNothing(c);
      ZeroBlockIs();
      StartsOver();
    }

    lemma StartsOver()
      requires Sound(c, Bs) && state.Length == Bs && block.Length == Bs && state != block
      requires len == 0 && fed == [] && Absorbed(c, [], state[..])
      ensures Valid()
    {
      hide Absorbed, Sound;
      assert Done() == [];
    }
  }

  /** How many blocks there are, counting a partial one. */
  lemma BlockCount(r: int)
    requires r >= 0
    ensures 2 <= (r + Bs - 1) / Bs <==> r > Bs
    ensures (r - Bs + Bs - 1) / Bs == (r + Bs - 1) / Bs - 1
    ensures (r + Bs - 1) / Bs >= 0
  {
    DivModShift(1, r - 1, Bs);
    if r > Bs {
      DivMono(2 * Bs, r + Bs - 1, Bs);
      DivModUnique(2 * Bs, 2, 0, Bs);
    } else {
      DivMono(r + Bs - 1, 2 * Bs - 1, Bs);
      DivModUnique(2 * Bs - 1, 1, Bs - 1, Bs);
    }
    DivMono(0, r + Bs - 1, Bs);
    ModSmall(0, Bs);
  }

  /** What waits at the end is the last block. */
  lemma LastIs(n: nat, len: nat)
    requires len <= n && len <= Bs && (n > 0 ==> len > 0) && (n - len) % Bs == 0
    ensures len == LastLength(n)
  {
    WholeBlocks(n - len, len);
    if len == Bs { DivModUnique(Bs, 1, 0, Bs); } else { ModSmall(len, Bs); }
  }

  /** The tag of a message does not depend on how the message was cut up. */
  method MacInChunks(c: BlockCipher, chunks: seq<Bytes>) returns (tag: Bytes)
    requires Sound(c, Bs)
    ensures tag == Mac(c, Flat(chunks)) && IsCmac(c, Flat(chunks), tag)
  {
    hide *;
    FlatStep([]);
    var ctx := new CmacContext(c);
    for i := 0 to |chunks|
      invariant fresh(ctx) && fresh(ctx.state) && fresh(ctx.block) && ctx.Valid()
      invariant ctx.fed == Flat(chunks[..i])
    {
      FlatStep(chunks[..i + 1]);
      assert chunks[..i + 1][..i] == chunks[..i];
      ctx.Update(chunks[i]);
    }
    assert chunks[..|chunks|] == chunks;
    var output := new bv8[Bs];
    ctx.Finish(output);
    tag := output[..];
  }
}
