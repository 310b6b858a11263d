/** The Diffie-Hellman step of the IKE engine: dh_mod_exp of crypto_hw_driver.c over the
    2048-bit group (group 14 of RFC 3526, section 3). */
module Dh {
  import opened Arith
  import opened Words
  import opened Mpis
  import opened MpiBits
  import opened MpiBytes
  import opened MpiExp

  const DhKeyLen: nat := 256

  type DhBytes = s: seq<Byte> | |s| == 256 witness seq(256, _ => 0)

  const P0: seq<Byte> := [
    0xFF, 0xFF, 0xFF, 0xFF, 0xFF, 0xFF, 0xFF, 0xFF, 0xC9, 0x0F, 0xDA, 0xA2, 0x21, 0x68, 0xC2, 0x34]
  const P1: seq<Byte> := [
    0xC4, 0xC6, 0x62, 0x8B, 0x80, 0xDC, 0x1C, 0xD1, 0x29, 0x02, 0x4E, 0x08, 0x8A, 0x67, 0xCC, 0x74]
  const P2: seq<Byte> := [
    0x02, 0x0B, 0xBE, 0xA6, 0x3B, 0x13, 0x9B, 0x22, 0x51, 0x4A, 0x08, 0x79, 0x8E, 0x34, 0x04, 0xDD]
  const P3: seq<Byte> := [
    0xEF, 0x95, 0x19, 0xB3, 0xCD, 0x3A, 0x43, 0x1B, 0x30, 0x2B, 0x0A, 0x6D, 0xF2, 0x5F, 0x14, 0x37]
  const P4: seq<Byte> := [
    0x4F, 0xE1, 0x35, 0x6D, 0x6D, 0x51, 0xC2, 0x45, 0xE4, 0x85, 0xB5, 0x76, 0x62, 0x5E, 0x7E, 0xC6]
  const P5: seq<Byte> := [
    0xF4, 0x4C, 0x42, 0xE9, 0xA6, 0x37, 0xED, 0x6B, 0x0B, 0xFF, 0x5C, 0xB6, 0xF4, 0x06, 0xB7, 0xED]
  const P6: seq<Byte> := [
    0xEE, 0x38, 0x6B, 0xFB, 0x5A, 0x89, 0x9F, 0xA5, 0xAE, 0x9F, 0x24, 0x11, 0x7C, 0x4B, 0x1F, 0xE6]
  const P7: seq<Byte> := [
    0x49, 0x28, 0x66, 0x51, 0xEC, 0xE4, 0x5B, 0x3D, 0xC2, 0x00, 0x7C, 0xB8, 0xA1, 0x63, 0xBF, 0x05]
  const P8: seq<Byte> := [
    0x98, 0xDA, 0x48, 0x36, 0x1C, 0x55, 0xD3, 0x9A, 0x69, 0x16, 0x3F, 0xA8, 0xFD, 0x24, 0xCF, 0x5F]
  const P9: seq<Byte> := [
    0x83, 0x65, 0x5D, 0x23, 0xDC, 0xA3, 0xAD, 0x96, 0x1C, 0x62, 0xF3, 0x56, 0x20, 0x85, 0x52, 0xBB]
  const PA: seq<Byte> := [
    0x9E, 0xD5, 0x29, 0x07, 0x70, 0x96, 0x96, 0x6D, 0x67, 0x0C, 0x35, 0x4E, 0x4A, 0xBC, 0x98, 0x04]
  const PB: seq<Byte> := [
    0xF1, 0x74, 0x6C, 0x08, 0xCA, 0x18, 0x21, 0x7C, 0x32, 0x90, 0x5E, 0x46, 0x2E, 0x36, 0xCE, 0x3B]
  const PC: seq<Byte> := [
    0xE3, 0x9E, 0x77, 0x2C, 0x18, 0x0E, 0x86, 0x03, 0x9B, 0x27, 0x83, 0xA2, 0xEC, 0x07, 0xA2, 0x8F]
  const PD: seq<Byte> := [
    0xB5, 0xC5, 0x5D, 0xF0, 0x6F, 0x4C, 0x52, 0xC9, 0xDE, 0x2B, 0xCB, 0xF6, 0x95, 0x58, 0x17, 0x18]
  const PE: seq<Byte> := [
    0x39, 0x95, 0x49, 0x7C, 0xEA, 0x95, 0x6A, 0xE5, 0x15, 0xD2, 0x26, 0x18, 0x98, 0xFA, 0x05, 0x10]
  const PF: seq<Byte> := [
    0x15, 0x72, 0x8E, 0x5A, 0x8A, 0xAC, 0xAA, 0x68, 0xFF, 0xFF, 0xFF, 0xFF, 0xFF, 0xFF, 0xFF, 0xFF]

  /** The group's prime, and its generator 2. */
  const Dh14P: DhBytes := P0 + P1 + P2 + P3 + P4 + P5 + P6 + P7 + P8 + P9 + PA + PB + PC + PD + PE + PF
  const Dh14G: DhBytes := Zeros(255) + [2]

  function Zeros(n: nat): (s: seq<Byte>)
    ensures |s| == n && forall k :: 0 <= k < n ==> s[k] == 0
  {
    seq(n, _ => 0)
  }

  lemma Dh14Odd()
    ensures FromBE(Dh14P) % 2 == 1
  {
    assert Dh14P[255] == 0xFF;
  }

  /** As in section 3 of RFC 3526: the prime has 2048 bits, of which the first and the last 64 are
      ones, and the generator is 2. */
  lemma Dh14Ends()
    ensures forall k :: 0 <= k < 256 && (k < 8 || k >= 248) ==> Dh14P[k] == 0xFF
    ensures FromBE(Dh14P) >= Pow2(2047) && FromBE(Dh14G) == 2
  {
    hide Pow2, FromBE, Dh14P, Dh14G;
    PrimeEnds();
    var rest := Dh14P[1..];
    assert Dh14P == [Dh14P[0]] + rest;
    FromBECons(0xFF, rest);
    Pow2Values();
    Pow2Add(7, 2040);
    MulMono(128, 255, Pow2(2040));
    Generator();
  }

  lemma PrimeEnds()
    ensures forall k :: 0 <= k < 256 && (k < 8 || k >= 248) ==> Dh14P[k] == 0xFF
  {
    RowLengths();
    hide P1, P2, P3, P4, P5, P6, P7, P8, P9, PA, PB, PC, PD, PE;
    forall k | 0 <= k < 256 && (k < 8 || k >= 248) ensures Dh14P[k] == 0xFF {
      assert Dh14P[k] == if k < 8 then P0[k] else PF[k - 240];
    }
  }

  lemma RowLengths()
    ensures |P0| == |PF| == 16 && |P1| == |P2| == |P3| == |P4| == |P5| == |P6| == |P7| == 16
    ensures |P8| == |P9| == |PA| == |PB| == |PC| == |PD| == |PE| == 16
  {}

  lemma Generator()
    ensures FromBE(Dh14G) == 2
  {
    hide FromBE;
    var z := Zeros(255);
    assert Dh14G == z + [2];
    AllZero(z);
    FromBESnoc(z, 2);
  }

  lemma {:induction false} AllZero(s: seq<Byte>)
    requires forall k :: 0 <= k < |s| ==> s[k] == 0
    ensures FromBE(s) == 0
    decreases |s|
  {
    if s != [] { AllZero(s[..|s| - 1]); }
  }

  lemma FromBESnoc(s: seq<Byte>, b: Byte)
    ensures FromBE(s + [b]) == 256 * FromBE(s) + b
  {
    assert (s + [b])[..|s|] == s;
  }

  /** The modulus, and the power that dh_mod_exp computes, in 256 bytes. */
  function DhPower(base: DhBytes, exp: DhBytes, modulus: DhBytes): (r: DhBytes)
  {
    var n := FromBE(modulus);
    ToBE(if n % 2 == 1 then Pow(FromBE(base), FromBE(exp)) % n else 0, 256)
  }

  lemma DhRange(modulus: DhBytes)
    ensures FromBE(modulus) < Pow2(2048) && BitLen(FromBE(modulus)) <= 2048
  {
    hide Pow2, BitLen;
    FromBEBound(modulus);
    BitLenBounds(FromBE(modulus));
    if FromBE(modulus) > 0 { Pow2Between(FromBE(modulus), BitLen(FromBE(modulus)) - 1, 2048); }
  }

  /** What exp_mod makes of 256-byte numbers. */
  lemma DhExponent(base: nat, exp: nat, n: nat)
    requires BitLen(exp) <= 2048 && BitLen(n) <= 2048
    ensures ExpAccepts(exp, n) <==> n % 2 == 1
    ensures n % 2 == 1 ==> 0 <= ModExp(base, exp, n) < n && ModExp(base, exp, n) == Pow(base, exp) % n
  {
    if n % 2 == 1 {
      ModExpCorrect(base, exp, n);
      DivModFacts(Pow(base, exp), n);
    }
  }

  /** The 256 bytes are those of the power; no part of it is lost. */
  lemma DhPowerValue(base: DhBytes, exp: DhBytes, modulus: DhBytes)
    ensures FromBE(DhPower(base, exp, modulus))
      == if FromBE(modulus) % 2 == 1 then Pow(FromBE(base), FromBE(exp)) % FromBE(modulus) else 0
  {
    hide Pow, Pow2, FromBE, ToBE;
    var n := FromBE(modulus);
    FromBEBound(modulus);
    if n % 2 == 1 {
      DivModFacts(Pow(FromBE(base), FromBE(exp)), n);
      FromToBE(Pow(FromBE(base), FromBE(exp)) % n, 256);
    } else {
      FromToBE(0, 256);
    }
  }

  /** base^exp mod modulus, from bytes to bytes. With an even modulus exp_mod refuses, and the
      result is all zeros. */
  method DhModExp(base: DhBytes, exp: DhBytes, modulus: DhBytes) returns (result: DhBytes)
    ensures result == DhPower(base, exp, modulus)
  {
    hide Pow, Pow2, FromBE, ToBE, BitLen, ModExp, ExpAccepts;
    var x := new Mpi();
    var b := new Mpi();
    var e := new Mpi();
    var m := new Mpi();
    ReadBinary(b, base);
    ReadBinary(e, exp);
    ReadBinary(m, modulus);
    DhRange(exp);
    DhRange(modulus);
    DhExponent(FromBE(base), FromBE(exp), FromBE(modulus));
    var status := ExpMod(x, b, e, m, null);
    ghost var v := if FromBE(modulus) % 2 == 1 then Pow(FromBE(base), FromBE(exp)) % FromBE(modulus) else 0;
    Pow2Values();
    Pow2Mono(0, 2048);
    result := Export(x, v);
  }

  /** The 256 bytes of x. */
  method Export(x: Mpi, ghost v: nat) returns (result: DhBytes)
    requires x.Valid() && x.Val() == v < Pow2(2048)
    ensures result == ToBE(v, 256)
  {
    hide Pow2, FromBE, ToBE;
    var out := new Byte[256](_ => 0);
    var written := WriteBinary(x, out);
    FromToBE(v, 256);
    FromBEInjective(out[..], ToBE(v, 256));
    result := out[..];
  }

  /** Both sides compute the same secret from each other's public value. */
  lemma Commutes(g: DhBytes, x: DhBytes, y: DhBytes, p: DhBytes)
    requires FromBE(p) % 2 == 1
    ensures DhPower(DhPower(g, x, p), y, p) == DhPower(DhPower(g, y, p), x, p)
  {
    hide Pow, Pow2, FromBE, ToBE;
    DhNested(g, x, y, p);
    DhNested(g, y, x, p);
    PowSwap(FromBE(g), FromBE(x), FromBE(y));
  }

  lemma PowSwap(g: int, x: nat, y: nat)
    ensures Pow(Pow(g, x), y) == Pow(Pow(g, y), x)
  {
    PowMul(g, x, y);
    PowMul(g, y, x);
  }

  lemma DhNested(g: DhBytes, x: DhBytes, y: DhBytes, p: DhBytes)
    requires FromBE(p) % 2 == 1
    ensures DhPower(DhPower(g, x, p), y, p) == ToBE(Pow(Pow(FromBE(g), FromBE(x)), FromBE(y)) % FromBE(p), 256)
  {
    hide Pow, Pow2, FromBE, ToBE;
    var n := FromBE(p);
    var gx := Pow(FromBE(g), FromBE(x));
    FromBEBound(p);
    DivModFacts(gx, n);
    FromToBE(gx % n, 256);
    CongMod(gx, n);
    CongPow(gx % n, gx, FromBE(y), n);
    CongIs(Pow(gx % n, FromBE(y)), Pow(gx, FromBE(y)), n);
  }
}
