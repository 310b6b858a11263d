/** CCM (ccm.c): counter-mode encryption interleaved with a CBC-MAC, as in NIST SP 800-38C. */
module Ccm {
  import opened Arith
  import opened Blocks

  // ---------- definitions ----------

  /** Bytes of the length field, for a nonce of the given length. */
  function LengthBytes(ivLen: nat): (q: nat)
    requires 7 <= ivLen <= 13
    ensures 2 <= q <= 8
  {
    15 - ivLen
  }

  /** Counter block number i. */
  function CtrBlock(iv: Bytes, i: nat): Block16
    requires 7 <= |iv| <= 13
  {
    var q := LengthBytes(|iv|);
    [(q - 1) as bv8] + iv + ToBytes(i, q)
  }

  /** The flags of the first block: additional data, tag length, length field. */
  function Flags(addLen: nat, tagLen: bv64, q: nat): bv8
    requires 2 <= q <= 8
  {
    (if addLen > 0 then 0x40 else 0) | (((((tagLen - 2) / 2) << 3) & 0xFF) as bv8) | ((q - 1) as bv8)
  }

  function FirstBlock(iv: Bytes, addLen: nat, length: nat, tagLen: bv64): Block16
    requires 7 <= |iv| <= 13
  {
    var q := LengthBytes(|iv|);
    [Flags(addLen, tagLen, q)] + iv + ToBytes(length, q)
  }

  function Take16(x: Bytes): (u: nat)
    ensures u <= |x| && u <= 16 && (x != [] ==> u > 0)
  {
    if |x| > 16 then 16 else |x|
  }

  function ZeroPad(x: Bytes): Block16
    requires |x| <= 16
  {
    x + Zeros(16 - |x|)
  }

  /** The MAC chain over x, cut into blocks and the last one padded with zeros. */
  function MacChain(c: BlockCipher, y: Block16, x: Bytes): Block16
    requires Sound(c, 16)
    decreases |x|
  {
    if x == [] then y
    else
      var u := Take16(x);
      MacChain(c, c.enc(Xor(ZeroPad(x[..u]), y)), x[u..])
  }

  /** x masked with the key stream that starts at counter i. */
  function CtrCrypt(c: BlockCipher, iv: Bytes, i: nat, x: Bytes): (r: Bytes)
    requires Sound(c, 16) && 7 <= |iv| <= 13
    ensures |r| == |x|
    decreases |x|
  {
    if x == [] then []
    else
      var u := Take16(x);
      Xor(x[..u], c.enc(CtrBlock(iv, i))[..u]) + CtrCrypt(c, iv, i + 1, x[u..])
  }

  /** The additional data with its two-byte length in front. */
  function AddData(add: Bytes): Bytes {
    if add == [] then [] else ToBytes(|add|, 2) + add
  }

  /** The tag of the plaintext m. */
  function Tag(c: BlockCipher, iv: Bytes, add: Bytes, m: Bytes, tagLen: bv64): Bytes
    requires Sound(c, 16) && 7 <= |iv| <= 13 && tagLen <= 16
  {
    var y := c.enc(Xor(FirstBlock(iv, |add|, |m|, tagLen), Zeros(16)));
    var z := MacChain(c, MacChain(c, y, AddData(add)), m);
    Xor(z, c.enc(CtrBlock(iv, 0)))[..tagLen as nat]
  }

  /** The parameters that are accepted. Tag length 0 belongs to CCM*. */
  predicate Accepts(ivLen: nat, addLen: nat, tagLen: nat, length: nat) {
    7 <= ivLen <= 13 && addLen < 0xFF00 && tagLen in {0, 4, 6, 8, 10, 12, 14, 16}
    && length < Pow2(8 * LengthBytes(ivLen))
  }

  // ---------- what NIST SP 800-38C asks for, byte by byte ----------

  /** Room for n bytes in whole blocks. */
  function Up16(n: nat): nat { (n + 15) / 16 * 16 }

  /** The formatted input of section A.2: B_0, the additional data behind its length, and the
      payload, each filled up with zeros. */
  ghost predicate IsFormatted(f: Bytes, iv: Bytes, add: Bytes, m: Bytes, tagLen: nat)
    requires 7 <= |iv| <= 13 && tagLen >= 2
  {
    var n, a := 1 + |iv|, 16 + if add == [] then 0 else Up16(2 + |add|);
    |f| == a + Up16(|m|)
    && f[0] as nat == 64 * (if add == [] then 0 else 1) + 8 * ((tagLen - 2) / 2) + (15 - n)
    && f[1..n] == iv && Value(f[n..16]) == |m|
    && (add != [] ==> Value(f[16..18]) == |add| && f[18..18 + |add|] == add
                      && forall k :: 18 + |add| <= k < a ==> f[k] == 0)
    && f[a..a + |m|] == m && forall k :: a + |m| <= k < |f| ==> f[k] == 0
  }

  /** The counter block with number i, of section A.3. */
  ghost predicate IsCounter(b: Block16, iv: Bytes, i: nat)
    requires 7 <= |iv| <= 13
  {
    var n := 1 + |iv|;
    b[0] as nat == 15 - n && b[1..n] == iv && Value(b[n..]) == i
  }

  lemma CounterIs(b: Block16, iv: Bytes, i: nat)
    requires 7 <= |iv| <= 13 && IsCounter(b, iv, i)
    ensures b == CtrBlock(iv, i)
  {
    hide ToBytes, Value;
    var n := 1 + |iv|;
    var q := LengthBytes(|iv|);
    SameByte(q - 1, b[0]);
    ToBytesValue(b[n..]);
    assert b == [b[0]] + b[1..n] + b[n..];
  }

  /** Every masked byte, by its place. */
  lemma {:induction false} MaskedByte(c: BlockCipher, iv: Bytes, i: nat, x: Bytes, k: nat)
    requires Sound(c, 16) && 7 <= |iv| <= 13 && k < |x|
    ensures CtrCrypt(c, iv, i, x)[k] == x[k] ^ c.enc(CtrBlock(iv, i + k / 16))[k % 16]
    decreases |x|
  {
    hide CtrBlock;
    var u := Take16(x);
    if k >= u {
      MaskedByte(c, iv, i + 1, x[u..], k - u);
      assert (k - 16) / 16 == k / 16 - 1 && (k - 16) % 16 == k % 16;
    }
  }

  /** The flags as a number. */
  lemma FlagsValue(addLen: nat, tagLen: bv64, q: nat)
    requires tagLen in {4, 6, 8, 10, 12, 14, 16} && 2 <= q <= 8
    ensures Flags(addLen, tagLen, q) as nat
      == 64 * (if addLen > 0 then 1 else 0) + 8 * ((tagLen as nat - 2) / 2) + (q - 1)
  {
    var t := ((((tagLen - 2) / 2) << 3) & 0xFF) as bv8;
    TagBits(tagLen);
    SmallNumber(q - 1);
    SumOfFlags(if addLen > 0 then 0x40 else 0, t, (q - 1) as bv8);
  }

  lemma TagBits(tagLen: bv64)
    requires tagLen in {4, 6, 8, 10, 12, 14, 16}
    ensures var t := ((((tagLen - 2) / 2) << 3) & 0xFF) as bv8;
            t & 0xC7 == 0 && t as nat == 8 * ((tagLen as nat - 2) / 2)
  {}

  lemma SmallNumber(n: nat)
    requires 1 <= n <= 7
    ensures (n as bv8) & 0xF8 == 0 && (n as bv8) as nat == n
  {}

  lemma SumOfFlags(a: bv8, b: bv8, c: bv8)
    requires (a == 0 || a == 0x40) && b & 0xC7 == 0 && c & 0xF8 == 0
    ensures (a | b | c) as nat == a as nat + b as nat + c as nat
  {
    assert a | b | c == a + b + c && a <= 0x40 && b <= 0x38 && c <= 0x07;
  }

  function Filled(x: Bytes): (p: Bytes)
    ensures |p| == Up16(|x|) && p[..|x|] == x && forall k :: |x| <= k < |p| ==> p[k] == 0
  {
    x + Zeros(Up16(|x|) - |x|)
  }

  lemma FilledIs(p: Bytes, x: Bytes)
    requires |p| == Up16(|x|) && p[..|x|] == x && forall k :: |x| <= k < |p| ==> p[k] == 0
    ensures p == Filled(x)
  {
    assert p == p[..|x|] + p[|x|..];
    assert p[|x|..] == Zeros(Up16(|x|) - |x|);
  }

  /** The formatted input is determined. */
  lemma FormattedIs(f: Bytes, iv: Bytes, add: Bytes, m: Bytes, tagLen: nat)
    requires 7 <= |iv| <= 13 && tagLen in {4, 6, 8, 10, 12, 14, 16} && IsFormatted(f, iv, add, m, tagLen)
    requires |add| < 0xFF00 && (tagLen as bv64) as nat == tagLen && tagLen as bv64 <= 16
    ensures f == FirstBlock(iv, |add|, |m|, tagLen as bv64) + Filled(AddData(add)) + Filled(m)
  {
    hide Value, ToBytes, Flags, Filled, Up16;
    var n, a := 1 + |iv|, 16 + if add == [] then 0 else Up16(2 + |add|);
    assert f[..16] == f[0..16];
    SliceOfSlice(f, 0, 16, 1, n);
    SliceOfSlice(f, 0, 16, n, 16);
    FirstIs(f[..16], iv, |add|, |m|, tagLen);
    UpToBlocks(2 + |add|);
    UpToBlocks(|m|);
    if add == [] {
      FilledNothing();
    } else {
      SliceOfSlice(f, 16, a, 0, 2);
      SliceOfSlice(f, 16, a, 2, 2 + |add|);
      assert f[16..a][..2] == f[16..a][0..2];
      AddIs(f[16..a], add);
    }
    SliceOfSlice(f, a, |f|, 0, |m|);
    assert f[a..|f|] == f[a..] && f[a..][0..|m|] == f[a..][..|m|];
    FilledIs(f[a..], m);
    ThreeParts(f, a);
  }

  lemma ThreeParts(f: Bytes, a: nat)
    requires 16 <= a <= |f|
    ensures f == f[..16] + f[16..a] + f[a..]
  {}

  /** There is one: the blocks that the code builds. */
  lemma FormattedExists(iv: Bytes, add: Bytes, m: Bytes, tagLen: nat)
    requires 7 <= |iv| <= 13 && tagLen in {4, 6, 8, 10, 12, 14, 16}
    requires |add| < 0xFF00 && |m| < Pow2(8 * LengthBytes(|iv|))
    requires (tagLen as bv64) as nat == tagLen && tagLen as bv64 <= 16
    ensures IsFormatted(FirstBlock(iv, |add|, |m|, tagLen as bv64) + Filled(AddData(add)) + Filled(m),
                        iv, add, m, tagLen)
  {
    hide Pow2, Value, ToBytes, Flags, Filled, Up16, FirstBlock, AddData;
    var n := 1 + |iv|;
    var b, h := FirstBlock(iv, |add|, |m|, tagLen as bv64), Filled(AddData(add));
    UpToBlocks(|m|);
    FirstParts(iv, |add|, |m|, tagLen);
    FrontPart(b, h, Filled(m), n);
    if add == [] {
      FilledNothing();
    } else {
      AddFront(add);
      MiddlePart(b, h, Filled(m), |add|);
    }
    LastPart(b + h, Filled(m), |m|);
  }

  lemma FirstParts(iv: Bytes, addLen: nat, length: nat, tagLen: nat)
    requires 7 <= |iv| <= 13 && tagLen in {4, 6, 8, 10, 12, 14, 16} && length < Pow2(8 * LengthBytes(|iv|))
    requires (tagLen as bv64) as nat == tagLen && tagLen as bv64 <= 16
    ensures var b := FirstBlock(iv, addLen, length, tagLen as bv64);
            b[0] as nat == 64 * (if addLen == 0 then 0 else 1) + 8 * ((tagLen - 2) / 2) + (14 - |iv|)
            && b[1..1 + |iv|] == iv && Value(b[1 + |iv|..16]) == length
  {
    hide Pow2, Value, ToBytes, Flags;
    var q := LengthBytes(|iv|);
    TagWord(tagLen);
    FlagsValue(addLen, tagLen as bv64, q);
    ValueToBytes(length, q);
    assert FirstBlock(iv, addLen, length, tagLen as bv64)[1 + |iv|..16] == ToBytes(length, q);
  }

  lemma FrontPart(b: Block16, h: Bytes, p: Bytes, n: nat)
    requires 1 <= n <= 16
    ensures var f := b + h + p; f[0] == b[0] && f[1..n] == b[1..n] && f[n..16] == b[n..16]
  {}

  lemma MiddlePart(b: Block16, h: Bytes, p: Bytes, n: nat)
    requires 2 + n <= |h|
    ensures var f := b + h + p;
            f[16..18] == h[0..2] && f[18..18 + n] == h[2..2 + n]
            && forall k :: 16 <= k < 16 + |h| ==> f[k] == h[k - 16]
  {}

  lemma LastPart(g: Bytes, p: Bytes, n: nat)
    requires n <= |p|
    ensures var f := g + p;
            f[|g|..|g| + n] == p[..n] && forall k :: |g| <= k < |f| ==> f[k] == p[k - |g|]
  {}

  lemma AddFront(add: Bytes)
    requires 0 < |add| < 0xFF00
    ensures var h := Filled(AddData(add));
            |h| == Up16(2 + |add|) >= 2 + |add| && Value(h[0..2]) == |add| && h[2..2 + |add|] == add
            && forall k :: 2 + |add| <= k < |h| ==> h[k] == 0
  {
    hide ToBytes, Value, Pow2, Up16;
    var x, h := AddData(add), Filled(AddData(add));
    UpToBlocks(2 + |add|);
    Pow2WordValues();
    ValueToBytes(|add|, 2);
    assert h[0..2] == h[..|x|][0..2] && h[2..2 + |add|] == h[..|x|][2..2 + |add|];
  }

  lemma CounterExists(iv: Bytes, i: nat)
    requires 7 <= |iv| <= 13 && i < Pow2(8 * LengthBytes(|iv|))
    ensures IsCounter(CtrBlock(iv, i), iv, i)
  {
    hide Pow2, Value, ToBytes;
    ValueToBytes(i, LengthBytes(|iv|));
    SmallNumber(LengthBytes(|iv|) - 1);
    var b := CtrBlock(iv, i);
    assert b[1 + |iv|..] == ToBytes(i, LengthBytes(|iv|));
  }

  lemma UpToBlocks(n: nat)
    ensures n <= Up16(n) < n + 16 && Up16(n) % 16 == 0
  {}

  lemma FilledNothing()
    ensures Filled([]) == [] && AddData([]) == [] && Up16(0) == 0
  {}

  lemma FirstIs(b: Block16, iv: Bytes, addLen: nat, length: nat, tagLen: nat)
    requires 7 <= |iv| <= 13 && tagLen in {4, 6, 8, 10, 12, 14, 16}
    requires (tagLen as bv64) as nat == tagLen && tagLen as bv64 <= 16
    requires b[0] as nat == 64 * (if addLen == 0 then 0 else 1) + 8 * ((tagLen - 2) / 2) + (14 - |iv|)
    requires b[1..1 + |iv|] == iv && Value(b[1 + |iv|..16]) == length
    ensures b == FirstBlock(iv, addLen, length, tagLen as bv64)
  {
    hide Value, ToBytes, Flags;
    var n, q := 1 + |iv|, LengthBytes(|iv|);
    TagWord(tagLen);
    FlagsValue(addLen, tagLen as bv64, q);
    EqualBytes(b[0], Flags(addLen, tagLen as bv64, q));
    ToBytesValue(b[n..16]);
    assert b == [b[0]] + b[1..n] + b[n..16];
  }

  lemma TagWord(tagLen: nat)
    requires tagLen in {4, 6, 8, 10, 12, 14, 16}
    ensures tagLen as bv64 in {4, 6, 8, 10, 12, 14, 16}
  {}

  lemma EqualBytes(a: bv8, b: bv8)
    requires a as nat == b as nat
    ensures a == b
  {}

  lemma AddIs(p: Bytes, add: Bytes)
    requires add != [] && |p| == Up16(2 + |add|) >= 2 + |add|
    requires Value(p[..2]) == |add| && p[2..2 + |add|] == add && forall k :: 2 + |add| <= k < |p| ==> p[k] == 0
    ensures p == Filled(AddData(add))
  {
    hide Value, ToBytes, Filled, Up16;
    ToBytesValue(p[..2]);
    var x := AddData(add);
    assert p[..2 + |add|] == p[..2] + p[2..2 + |add|];
    FilledIs(p, x);
  }

  lemma {:induction false} MacChainIsCbc(c: BlockCipher, g: Bytes, x: Bytes)
    requires Sound(c, 16) && |g| % 16 == 0
    ensures |g + Filled(x)| % 16 == 0 && CbcMac(c, 16, g + Filled(x)) == MacChain(c, CbcMac(c, 16, g), x)
    decreases |x|
  {
    hide Filled, Xor, CbcMac, MacChain, Up16;
    UpToBlocks(|x|);
    MacChainStep(c, CbcMac(c, 16, g), x);
    if x == [] {
      FilledNothing();
      assert g + Filled(x) == g;
    } else {
      var u := Take16(x);
      var b := ZeroPad(x[..u]);
      FilledStep(x);
      CbcStep(c, 16, g, b);
      MacChainIsCbc(c, g + b, x[u..]);
      assert g + Filled(x) == (g + b) + Filled(x[u..]);
    }
  }

  lemma FilledStep(x: Bytes)
    requires x != []
    ensures Filled(x) == ZeroPad(x[..Take16(x)]) + Filled(x[Take16(x)..])
  {}

  /** The tag is the CBC-MAC of the formatted input, masked with counter block 0. */
  lemma TagMeaning(c: BlockCipher, iv: Bytes, add: Bytes, m: Bytes, tagLen: nat, f: Bytes, a: Block16)
    requires Sound(c, 16) && 7 <= |iv| <= 13 && tagLen in {4, 6, 8, 10, 12, 14, 16} && |add| < 0xFF00
    requires (tagLen as bv64) as nat == tagLen && tagLen as bv64 <= 16
    requires IsFormatted(f, iv, add, m, tagLen) && IsCounter(a, iv, 0)
    ensures |f| % 16 == 0 && |Tag(c, iv, add, m, tagLen as bv64)| == tagLen
    ensures Tag(c, iv, add, m, tagLen as bv64) == Xor(CbcMac(c, 16, f), c.enc(a))[..tagLen]
  {
    hide CtrBlock, FirstBlock, MacChain, AddData, Xor, CbcMac, Filled, IsFormatted, IsCounter, Up16;
    FormattedIs(f, iv, add, m, tagLen);
    CounterIs(a, iv, 0);
    TagIs(c, iv, add, m, tagLen as bv64);
    var b := FirstBlock(iv, |add|, |m|, tagLen as bv64);
    CbcNothing(c, 16);
    CbcStep(c, 16, [], b);
    assert [] + b == b;
    MacChainIsCbc(c, b, AddData(add));
    MacChainIsCbc(c, b + Filled(AddData(add)), m);
  }

  /** CCM: every byte of y is that of x masked with its place in the key stream, and the tag is the
      masked CBC-MAC of the formatted header and plaintext, which is x or y. */
  ghost predicate IsCcm(c: BlockCipher, enc: bool, iv: Bytes, add: Bytes, x: Bytes, y: Bytes, tag: Bytes)
    requires Sound(c, 16) && 7 <= |iv| <= 13
  {
    |y| == |x|
    && (forall k: nat, a: Block16 :: k < |x| && IsCounter(a, iv, k / 16 + 1) ==> y[k] == x[k] ^ c.enc(a)[k % 16])
    && (|tag| >= 2 ==> forall f: Bytes, a: Block16 ::
          IsFormatted(f, iv, add, if enc then x else y, |tag|) && IsCounter(a, iv, 0) ==>
            |f| % 16 == 0 && |tag| <= 16 && tag == Xor(CbcMac(c, 16, f), c.enc(a))[..|tag|])
  }

  lemma AuthMeaning(c: BlockCipher, enc: bool, iv: Bytes, add: Bytes, x: Bytes, tagLen: nat)
    requires Sound(c, 16) && 7 <= |iv| <= 13 && tagLen in {0, 4, 6, 8, 10, 12, 14, 16} && |add| < 0xFF00
    requires (tagLen as bv64) as nat == tagLen && tagLen as bv64 <= 16
    ensures IsCcm(c, enc, iv, add, x, CtrCrypt(c, iv, 1, x),
                  Tag(c, iv, add, Plain(c, enc, iv, 1, x), tagLen as bv64))
  {
    hide CtrCrypt, CtrBlock, Tag, CbcMac, IsFormatted, IsCounter;
    var y, m := CtrCrypt(c, iv, 1, x), Plain(c, enc, iv, 1, x);
    TagLength(c, iv, add, m, tagLen as bv64);
    forall k: nat, a: Block16 | k < |x| && IsCounter(a, iv, k / 16 + 1)
      ensures y[k] == x[k] ^ c.enc(a)[k % 16]
    {
      CounterIs(a, iv, k / 16 + 1);
      MaskedByte(c, iv, 1, x, k);
    }
    if tagLen > 0 {
      forall f: Bytes, a: Block16 | IsFormatted(f, iv, add, m, tagLen) && IsCounter(a, iv, 0)
        ensures |f| % 16 == 0 && Tag(c, iv, add, m, tagLen as bv64) == Xor(CbcMac(c, 16, f), c.enc(a))[..tagLen]
      {
        TagMeaning(c, iv, add, m, tagLen, f, a);
      }
    }
  }

  lemma TagLength(c: BlockCipher, iv: Bytes, add: Bytes, m: Bytes, tagLen: bv64)
    requires Sound(c, 16) && 7 <= |iv| <= 13 && tagLen <= 16
    ensures |Tag(c, iv, add, m, tagLen)| == tagLen as nat
  {
    hide CtrBlock, FirstBlock, MacChain, AddData;
  }

  // ---------- counters ----------

  /** Different numbers give different counter blocks. */
  lemma CtrInjective(iv: Bytes, i: nat, j: nat)
    requires 7 <= |iv| <= 13 && i < Pow2(8 * LengthBytes(|iv|)) && j < Pow2(8 * LengthBytes(|iv|))
    requires CtrBlock(iv, i) == CtrBlock(iv, j)
    ensures i == j
  {
    hide Pow2, ToBytes, Value;
    var q := LengthBytes(|iv|);
    assert CtrBlock(iv, i)[1 + |iv|..] == ToBytes(i, q) && CtrBlock(iv, j)[1 + |iv|..] == ToBytes(j, q);
    ValueToBytes(i, q);
    ValueToBytes(j, q);
  }

  /** Blocks of a message. */
  function BlockCount(length: nat): nat { (length + 15) / 16 }

  /** An admissible length leaves room for all counters: those of the data blocks are pairwise
      distinct, differ from the one of the tag, and do not wrap even after the last block. */
  lemma CountersDistinct(iv: Bytes, length: nat, i: nat, j: nat)
    requires 7 <= |iv| <= 13 && length < Pow2(8 * LengthBytes(|iv|))
    ensures BlockCount(length) + 1 < Pow2(8 * LengthBytes(|iv|))
    ensures i < j <= BlockCount(length) ==> CtrBlock(iv, i) != CtrBlock(iv, j)
  {
    hide Pow2, ToBytes, Value, CtrBlock;
    var q := LengthBytes(|iv|);
    Pow2WordValues();
    Pow2Mono(16, 8 * q);
    if i < j <= BlockCount(length) && CtrBlock(iv, i) == CtrBlock(iv, j) {
      CtrInjective(iv, i, j);
    }
  }

  // ---------- decryption undoes encryption ----------

  lemma {:induction false} CtrTwice(c: BlockCipher, iv: Bytes, i: nat, x: Bytes)
    requires Sound(c, 16) && 7 <= |iv| <= 13
    ensures CtrCrypt(c, iv, i, CtrCrypt(c, iv, i, x)) == x
    decreases |x|
  {
    hide CtrBlock;
    if x != [] {
      var u := Take16(x);
      var k := c.enc(CtrBlock(iv, i))[..u];
      var r := CtrCrypt(c, iv, i, x);
      assert r[..u] == Xor(x[..u], k) && r[u..] == CtrCrypt(c, iv, i + 1, x[u..]);
      XorTwice(x[..u], k);
      CtrTwice(c, iv, i + 1, x[u..]);
      assert x == x[..u] + x[u..];
    }
  }

  // ---------- the code ----------

  /** Adding one to big-endian bytes: carry while bytes turn zero. */
  function Inc(s: Bytes): (r: Bytes)
    ensures |r| == |s|
  {
    if s == [] then []
    else
      var n := |s| - 1;
      if s[n] + 1 != 0 then s[..n] + [s[n] + 1] else Inc(s[..n]) + [0]
  }

  lemma {:induction false} IncValue(s: Bytes)
    requires Value(s) + 1 < Pow2(8 * |s|)
    ensures Value(Inc(s)) == Value(s) + 1
  {
    hide Pow2;
    if s == [] {
      EmptyValue();
    } else {
      var n := |s| - 1;
      assert s == s[..n] + [s[n]];
      ValueSnoc(s[..n], s[n]);
      NextByte(s[n]);
      ByteWeight(n);
      if s[n] + 1 != 0 {
        ValueSnoc(s[..n], s[n] + 1);
      } else {
        IncValue(s[..n]);
        ValueSnoc(Inc(s[..n]), 0);
      }
    }
  }

  lemma NextByte(x: bv8)
    ensures if x + 1 != 0 then (x + 1) as nat == x as nat + 1 else x as nat == 255
  {}

  /** Advance the counter in place. */
  method IncCounter(ctr: array<bv8>, iv: Bytes, ghost i: nat)
    requires ctr.Length == 16 && 7 <= |iv| <= 13 && ctr[..] == CtrBlock(iv, i)
    requires i + 1 < Pow2(8 * LengthBytes(|iv|))
    modifies ctr
    ensures ctr[..] == CtrBlock(iv, i + 1)
  {
    hide Pow2, ToBytes, Value, Inc;
    var q := LengthBytes(|iv|);
    ghost var head, num := [(q - 1) as bv8] + iv, ToBytes(i, q);
    assert ctr[..16 - q] == head && ctr[16 - q..] == num;
    CarryOut(ctr, q);
    assert ctr[..] == ctr[..16 - q] + ctr[16 - q..];
    ValueToBytes(i, q);
    IncValue(num);
    ToBytesValue(Inc(num));
  }

  function Next(b: bv8): bv8 { b + 1 }

  /** The increment reaches past the last i bytes if they are all 255, and stops at a byte that
      is not. */
  lemma {:induction false} IncReach(num: Bytes, i: nat)
    requires i <= |num| && forall j :: |num| - i <= j < |num| ==> Next(num[j]) == 0
    requires i < |num| ==> Next(num[|num| - i - 1]) != 0
    ensures |Inc(num)| == |num|
    ensures forall j :: 0 <= j < |num| ==> Inc(num)[j] == if j < |num| - i - 1 then num[j] else Next(num[j])
    decreases i
  {
    if i > 0 {
      var low := num[..|num| - 1];
      IncReach(low, i - 1);
      assert Inc(num) == Inc(low) + [0];
    }
  }

  /** A carry that went over i bytes and stopped, or was lost beyond the last of the q bytes. */
  lemma Carried(was: Bytes, now: Bytes, q: nat, i: nat)
    requires |was| == |now| == 16 && i <= q <= 16
    requires forall j :: 16 - i <= j < 16 ==> Next(was[j]) == 0
    requires i < q ==> Next(was[15 - i]) != 0
    requires forall j :: 0 <= j < 16 ==> now[j] == if j < 16 - q || j < 15 - i then was[j] else Next(was[j])
    ensures now[16 - q..] == Inc(was[16 - q..]) && now[..16 - q] == was[..16 - q]
  {
    hide Inc, Next;
    var num := was[16 - q..];
    assert forall j :: 0 <= j < q ==> num[j] == was[16 - q + j];
    IncReach(num, i);
  }

  /** The carry loop. */
  method CarryOut(ctr: array<bv8>, q: nat)
    requires ctr.Length == 16 && q <= 16
    modifies ctr
    ensures ctr[16 - q..] == Inc(old(ctr[16 - q..])) && ctr[..16 - q] == old(ctr[..16 - q])
  {
    hide Inc, Next;
    ghost var was := ctr[..];
    var i := 0;
    var carry := true;
    ghost var keep: nat := 16;
    while i < q && carry
      invariant 0 <= i <= q && 16 - q <= keep == if carry then 16 - i else 15 - i
      invariant forall j :: 16 - i <= j < 16 ==> Next(was[j]) == 0
      invariant !carry ==> Next(was[15 - i]) != 0
      invariant forall j :: 0 <= j < keep ==> ctr[j] == was[j]
      invariant forall j :: keep <= j < 16 ==> ctr[j] == Next(was[j])
      decreases q - i, carry
    {
      keep := keep - 1;
      ctr[15 - i] := Next(ctr[15 - i]);
      if ctr[15 - i] != 0 { carry := false; } else { i := i + 1; }
    }
    Carried(was, ctr[..], q, i);
    assert ctr[16 - q..] == ctr[..][16 - q..] && ctr[..16 - q] == ctr[..][..16 - q];
    assert was[16 - q..] == old(ctr[16 - q..]) && was[..16 - q] == old(ctr[..16 - q]);
  }

  /** One step of the CBC-MAC. */
  function MacStep(c: BlockCipher, y: Block16, b: Block16): Block16
    requires Sound(c, 16)
  {
    c.enc(Xor(b, y))
  }

  lemma SpliceEmpty(a: Bytes)
    ensures Splice(a, 0, []) == a
  {}

  lemma MacChainStep(c: BlockCipher, y: Block16, x: Bytes)
    requires Sound(c, 16)
    ensures x == [] ==> MacChain(c, y, x) == y
    ensures x != [] ==> MacChain(c, y, x) == MacChain(c, MacStep(c, y, ZeroPad(x[..Take16(x)])), x[Take16(x)..])
  {}

  /** The first block, or a refusal when the length does not fit its field. */
  method BuildFirst(iv: Bytes, addLen: nat, length: nat, tagLen: bv64) returns (ok: bool, b: Block16)
    requires 7 <= |iv| <= 13
    ensures ok <==> length < Pow2(8 * LengthBytes(|iv|))
    ensures ok ==> b == FirstBlock(iv, addLen, length, tagLen)
  {
    hide Pow2;
    var q := LengthBytes(|iv|);
    var field := new bv8[q](_ => 0);
    var left := length;
    EmptyValue();
    for i := 0 to q
      invariant left == length / Pow2(8 * i)
      invariant field[q - i..] == ToBytes(length % Pow2(8 * i), i)
    {
      ghost var low := field[q - i..];
      field[q - 1 - i] := (left % 256) as bv8;
      assert field[q - (i + 1)..] == [field[q - 1 - i]] + low;
      NextLengthByte(length, i);
      left := left / 256;
    }
    assert field[0..] == field[..];
    DivModFacts(length, Pow2(8 * q));
    if left > 0 {
      if length < Pow2(8 * q) { ModSmall(length, Pow2(8 * q)); }
      return false, Zeros(16);
    }
    b := [Flags(addLen, tagLen, q)] + iv + field[..];
    ok := true;
  }

  lemma NextLengthByte(n: nat, i: nat)
    ensures n / Pow2(8 * (i + 1)) == n / Pow2(8 * i) / 256
    ensures ToBytes(n % Pow2(8 * (i + 1)), i + 1) == [(n / Pow2(8 * i) % 256) as bv8] + ToBytes(n % Pow2(8 * i), i)
  {
    hide Pow2, ToBytes, Value;
    ByteWeight(i);
    DivDiv(n, Pow2(8 * i), 256);
    DivModFacts(n, Pow2(8 * i));
    var x := (n / Pow2(8 * i) % 256) as bv8;
    var s := ToBytes(n % Pow2(8 * i), i);
    ByteRoundTrip(n / Pow2(8 * i) % 256);
    ValueToBytes(n % Pow2(8 * i), i);
    ValueCons(x, s);
    ToBytesValue([x] + s);
  }

  lemma AddSplit(h: Bytes, add: Bytes, u: nat)
    requires |h| == 2 && u <= |add|
    ensures (h + add)[..2 + u] == h + add[..u] && (h + add)[2 + u..] == add[u..]
  {}

  lemma AddFirst(add: Bytes)
    requires 0 < |add| < 0x10000
    ensures var u := if |add| < 14 then |add| else 14;
            var d := AddData(add);
            Take16(d) == 2 + u && d[..2 + u] == ToBytes(|add|, 2) + add[..u] && d[2 + u..] == add[u..]
  {
    hide ToBytes;
    var u := if |add| < 14 then |add| else 14;
    AddSplit(ToBytes(|add|, 2), add, u);
  }

  /** The CBC-MAC over the additional data, two length bytes first. */
  method MacAdd(c: BlockCipher, y0: Block16, add: Bytes) returns (y: Block16)
    requires Sound(c, 16) && |add| < 0xFF00
    ensures y == MacChain(c, y0, AddData(add))
  {
    hide MacChain, MacStep, ToBytes;
    y := y0;
    MacChainStep(c, y0, AddData(add));
    if |add| > 0 {
      var use := if |add| < 14 then |add| else 14;
      AddFirst(add);
      y := MacStep(c, y, ZeroPad(ToBytes(|add|, 2) + add[..use]));
      var rest := add[use..];
      while |rest| > 0
        invariant MacChain(c, y0, AddData(add)) == MacChain(c, y, rest)
        decreases |rest|
      {
        MacChainStep(c, y, rest);
        use := if |rest| > 16 then 16 else |rest|;
        y := MacStep(c, y, ZeroPad(rest[..use]));
        rest := rest[use..];
      }
      MacChainStep(c, y, rest);
      assert rest == [];
    }
  }

  lemma CtrCryptStep(c: BlockCipher, iv: Bytes, i: nat, x: Bytes)
    requires Sound(c, 16) && 7 <= |iv| <= 13
    ensures x == [] ==> CtrCrypt(c, iv, i, x) == []
    ensures x != [] ==>
      CtrCrypt(c, iv, i, x)
        == Xor(x[..Take16(x)], c.enc(CtrBlock(iv, i))[..Take16(x)]) + CtrCrypt(c, iv, i + 1, x[Take16(x)..])
  {}

  /** One round of the message loop on the chunk x: MAC and mask, in the order that the
      direction asks for. */
  method Chunk(c: BlockCipher, enc: bool, ctr: array<bv8>, y0: Block16, x: Bytes) returns (y: Block16, r: Bytes)
    requires Sound(c, 16) && ctr.Length == 16 && |x| <= 16
    ensures r == Xor(x, c.enc(ctr[..])[..|x|])
    ensures y == MacStep(c, y0, ZeroPad(if enc then x else r))
  {
    hide MacStep;
    y := y0;
    if enc { y := MacStep(c, y, ZeroPad(x)); }
    var b := c.enc(ctr[..]);
    r := Xor(x, b[..|x|]);
    if !enc { y := MacStep(c, y, ZeroPad(r)); }
  }

  /** done is the masked text of the first k bytes of src. */
  ghost predicate Prefix(c: BlockCipher, iv: Bytes, src: Bytes, k: nat, i: nat, done: Bytes)
  {
    Sound(c, 16) && 7 <= |iv| <= 13 && k <= |src| && |done| == k
    && CtrCrypt(c, iv, 1, src) == done + CtrCrypt(c, iv, i, src[k..])
  }

  /** The text that is authenticated: the plaintext, which is what goes in or what comes out. */
  function Plain(c: BlockCipher, enc: bool, iv: Bytes, i: nat, x: Bytes): Bytes
    requires Sound(c, 16) && 7 <= |iv| <= 13
  {
    if enc then x else CtrCrypt(c, iv, i, x)
  }

  /** y is the MAC after the first k bytes, started from y0. */
  ghost predicate MacSoFar(c: BlockCipher, enc: bool, iv: Bytes, src: Bytes, y0: Block16,
                           k: nat, i: nat, y: Block16)
  {
    Sound(c, 16) && 7 <= |iv| <= 13 && k <= |src|
    && MacChain(c, y0, Plain(c, enc, iv, 1, src)) == MacChain(c, y, Plain(c, enc, iv, i, src[k..]))
  }

  lemma ChunkDone(c: BlockCipher, enc: bool, iv: Bytes, src: Bytes, y0: Block16,
                  k: nat, i: nat, y: Block16, done: Bytes, x: Bytes, r: Bytes)
    requires Prefix(c, iv, src, k, i, done) && MacSoFar(c, enc, iv, src, y0, k, i, y) && k < |src|
    requires x == src[k..][..Take16(src[k..])] && r == Xor(x, c.enc(CtrBlock(iv, i))[..|x|])
    ensures Prefix(c, iv, src, k + |x|, i + 1, done + r)
    ensures MacSoFar(c, enc, iv, src, y0, k + |x|, i + 1, MacStep(c, y, ZeroPad(if enc then x else r)))
  {
    hide CtrCrypt, MacChain, MacStep, CtrBlock, Xor;
    var u := |x|;
    var tail := CtrCrypt(c, iv, i + 1, src[k + u..]);
    CtrCryptStep(c, iv, i, src[k..]);
    assert src[k..][u..] == src[k + u..];
    assert done + (r + tail) == (done + r) + tail;
    MacChainStep(c, y, Plain(c, enc, iv, i, src[k..]));
    if !enc {
      assert (r + tail)[..u] == r && (r + tail)[u..] == tail;
    }
  }

  lemma LoopStart(c: BlockCipher, enc: bool, iv: Bytes, src: Bytes, y0: Block16)
    requires Sound(c, 16) && 7 <= |iv| <= 13
    ensures Prefix(c, iv, src, 0, 1, []) && MacSoFar(c, enc, iv, src, y0, 0, 1, y0)
  {
    hide CtrCrypt, MacChain;
    assert src[0..] == src;
    assert CtrCrypt(c, iv, 1, src) == [] + CtrCrypt(c, iv, 1, src);
  }

  lemma LoopEnd(c: BlockCipher, enc: bool, iv: Bytes, src: Bytes, y0: Block16, i: nat, y: Block16, done: Bytes)
    requires Prefix(c, iv, src, |src|, i, done) && MacSoFar(c, enc, iv, src, y0, |src|, i, y)
    ensures done == CtrCrypt(c, iv, 1, src) && y == MacChain(c, y0, Plain(c, enc, iv, 1, src))
  {
    hide CtrCrypt, MacChain;
    CtrCryptStep(c, iv, i, []);
    MacChainStep(c, y, []);
    assert src[|src|..] == [];
    assert done + [] == done;
  }

  lemma ChunkRoom(iv: Bytes, length: nat, k: nat)
    requires 7 <= |iv| <= 13 && length < Pow2(8 * LengthBytes(|iv|)) && k < length
    ensures k / 16 + 2 < Pow2(8 * LengthBytes(|iv|))
  {
    hide Pow2;
    CountersDistinct(iv, length, 0, 0);
  }

  lemma ReadChunk(inp: Bytes, k: nat, src: Bytes, use: nat)
    requires Unread(inp, k, src) && k + use <= |src|
    ensures inp[k..k + use] == src[k..][..use]
  {
    assert inp[k..k + use] == inp[k..|src|][..use];
  }

  /** The loop body: one chunk read, masked, authenticated and written. */
  method Round(c: BlockCipher, enc: bool, iv: Bytes, k: nat, use: nat, input: array<bv8>, output: array<bv8>,
               ctr: array<bv8>, y1: Block16, ghost src: Bytes, ghost was: Bytes, ghost y0: Block16,
               ghost done: Bytes) returns (y: Block16, ghost r: Bytes)
    requires Prefix(c, iv, src, k, k / 16 + 1, done) && MacSoFar(c, enc, iv, src, y0, k, k / 16 + 1, y1)
    requires Sound(c, 16) && 7 <= |iv| <= 13 && k + use <= |src| && use == Take16(src[k..]) && use > 0
    requires |src| < Pow2(8 * LengthBytes(|iv|)) && |src| <= output.Length && Unread(input[..], k, src)
    requires ctr.Length == 16 && ctr != input && ctr != output && ctr[..] == CtrBlock(iv, k / 16 + 1)
    requires |done| == k && |was| == output.Length && output[..] == Splice(was, 0, done)
    modifies output, ctr
    ensures |r| == use && Prefix(c, iv, src, k + use, k / 16 + 2, done + r)
    ensures MacSoFar(c, enc, iv, src, y0, k + use, k / 16 + 2, y)
    ensures output[..] == Splice(was, 0, done + r) && Unread(input[..], k + use, src)
    ensures ctr[..] == CtrBlock(iv, k / 16 + 2)
  {
    hide CtrCrypt, MacChain, MacStep, CtrBlock, Xor, Splice, Prefix, MacSoFar, Pow2, Plain, Unread, ZeroPad;
    ghost var inp := input[..];
    UnreadBounds(inp, k, src);
    var x := input[k..k + use];
    assert x == inp[k..k + use];
    ReadChunk(inp, k, src, use);
    ChunkRoom(iv, |src|, k);
    var m;
    y, m := Chunk(c, enc, ctr, y1, x);
    r := m;
    ChunkDone(c, enc, iv, src, y0, k, k / 16 + 1, y1, done, x, m);
    SpliceJoin(was, 0, done, m);
    Store(output, k, m);
    StillUnread(inp, input[..], k, src, m);
    IncCounter(ctr, iv, k / 16 + 1);
  }

  lemma UnreadBounds(inp: Bytes, k: nat, src: Bytes)
    requires Unread(inp, k, src)
    ensures k <= |src| <= |inp|
  {}

  /** The message loop. In place is possible. */
  method CryptAndMac(c: BlockCipher, enc: bool, iv: Bytes, length: nat, input: array<bv8>, output: array<bv8>,
                     ctr: array<bv8>, y0: Block16) returns (y: Block16)
    requires Sound(c, 16) && 7 <= |iv| <= 13 && length <= input.Length && length <= output.Length
    requires length < Pow2(8 * LengthBytes(|iv|))
    requires ctr.Length == 16 && ctr != input && ctr != output && ctr[..] == CtrBlock(iv, 1)
    modifies output, ctr
    ensures output[..] == Splice(old(output[..]), 0, CtrCrypt(c, iv, 1, old(input[..length])))
    ensures y == MacChain(c, y0, Plain(c, enc, iv, 1, old(input[..length])))
    ensures exists i :: ctr[..] == CtrBlock(iv, i)
  {
    hide CtrCrypt, MacChain, MacStep, CtrBlock, Xor, Splice, Prefix, MacSoFar, Pow2, Plain, Unread;
    ghost var src, was, done: Bytes := input[..length], output[..], [];
    var k: nat := 0;
    ghost var i: nat := 1;
    y := y0;
    LoopStart(c, enc, iv, src, y0);
    SpliceEmpty(was);
    UnreadAll(input[..], src);
    while k < length
      invariant k <= length && (k < length ==> k % 16 == 0 && i == k / 16 + 1) && ctr[..] == CtrBlock(iv, i)
      invariant Prefix(c, iv, src, k, i, done) && |done| == k && output[..] == Splice(was, 0, done)
      invariant MacSoFar(c, enc, iv, src, y0, k, i, y)
      invariant Unread(input[..], k, src)
    {
      var use := if length - k > 16 then 16 else length - k;
      ghost var r;
      y, r := Round(c, enc, iv, k, use, input, output, ctr, y, src, was, y0, done);
      done := done + r;
      i := k / 16 + 2;
      k := k + use;
    }
    LoopEnd(c, enc, iv, src, y0, i, y, done);
  }

  lemma UnreadAll(inp: Bytes, src: Bytes)
    requires |src| <= |inp| && inp[..|src|] == src
    ensures Unread(inp, 0, src)
  {
    assert src[0..] == src && inp[0..|src|] == src;
  }

  /** ccm_auth_crypt: length checks, MAC of header and data, message loop, tag. */
  method AuthCrypt(c: BlockCipher, enc: bool, length: nat, iv: Bytes, add: Bytes,
                   input: array<bv8>, output: array<bv8>, tag: array<bv8>, tagLen: nat) returns (ok: bool)
    requires Sound(c, 16) && length <= input.Length && length <= output.Length && tagLen <= tag.Length
    requires tag != input && tag != output && tagLen < 0x1_0000_0000
    modifies output, tag
    ensures ok <==> Accepts(|iv|, |add|, tagLen, length)
    ensures ok ==> output[..] == Splice(old(output[..]), 0, CtrCrypt(c, iv, 1, old(input[..length])))
    ensures ok ==> tag[..tagLen] == Tag(c, iv, add, Plain(c, enc, iv, 1, old(input[..length])), tagLen as bv64)
    ensures ok ==> IsCcm(c, enc, iv, add, old(input[..length]), output[..length], tag[..tagLen])
    ensures !ok ==> output[..] == old(output[..])
  {
    hide CtrCrypt, MacChain, CtrBlock, Xor, Splice, Pow2, Plain, FirstBlock, AddData, Tag;
    hide IsCcm;
    if tagLen == 2 || tagLen > 16 || tagLen % 2 != 0 { return false; }
    if |iv| < 7 || |iv| > 13 { return false; }
    if |add| >= 0xFF00 { return false; }
    ghost var src, was := input[..length], output[..];
    var good, b := BuildFirst(iv, |add|, length, tagLen as bv64);
    if !good { return false; }
    var y := c.enc(Xor(b, Zeros(16)));
    y := MacAdd(c, y, add);
    var ctr := FirstCounter(iv);
    y := CryptAndMac(c, enc, iv, length, input, output, ctr, y);
    PlainLength(c, enc, iv, src);
    TagIs(c, iv, add, Plain(c, enc, iv, 1, src), tagLen as bv64);
    ClearCounter(ctr, iv);
    var t := Xor(y, c.enc(ctr[..]));
    TagBytes(tagLen);
    forall k | 0 <= k < tagLen { tag[k] := t[k]; }
    assert tag[..tagLen] == t[..tagLen];
    ok := true;
    SpliceFacts(was, 0, CtrCrypt(c, iv, 1, src));
    assert output[..length] == CtrCrypt(c, iv, 1, src);
    AuthMeaning(c, enc, iv, add, src, tagLen);
  }

  lemma TagBytes(n: nat)
    requires n <= 16
    ensures (n as bv64) as nat == n && n as bv64 <= 16
  {
    var w := SmallWord(n);
    SameWord(n, w);
  }

  lemma {:induction false} SmallWord(n: nat) returns (w: bv64)
    requires n <= 16
    ensures w as nat == n && w <= 16
  {
    if n == 0 {
      w := 0;
    } else {
      w := SmallWord(n - 1);
      NextWord(w);
      w := w + 1;
    }
  }

  lemma NextWord(w: bv64)
    requires w as nat < 16 && w <= 16
    ensures (w + 1) as nat == w as nat + 1 && w + 1 <= 16
  {}

  lemma SameWord(n: nat, w: bv64)
    requires w as nat == n
    ensures n as bv64 == w
  {}

  lemma PlainLength(c: BlockCipher, enc: bool, iv: Bytes, src: Bytes)
    requires Sound(c, 16) && 7 <= |iv| <= 13
    ensures |Plain(c, enc, iv, 1, src)| == |src|
  {}

  lemma TagIs(c: BlockCipher, iv: Bytes, add: Bytes, m: Bytes, tagLen: bv64)
    requires Sound(c, 16) && 7 <= |iv| <= 13 && tagLen <= 16
    ensures var y := c.enc(Xor(FirstBlock(iv, |add|, |m|, tagLen), Zeros(16)));
            var z := MacChain(c, MacChain(c, y, AddData(add)), m);
            Tag(c, iv, add, m, tagLen) == Xor(z, c.enc(CtrBlock(iv, 0)))[..tagLen as nat]
  {
    hide CtrBlock, FirstBlock, MacChain, AddData, Xor;
  }

  method FirstCounter(iv: Bytes) returns (ctr: array<bv8>)
    requires 7 <= |iv| <= 13
    ensures fresh(ctr) && ctr.Length == 16 && ctr[..] == CtrBlock(iv, 1)
  {
    var q := LengthBytes(|iv|);
    ctr := new bv8[16](_ => 0);
    ctr[0] := (q - 1) as bv8;
    forall k | 0 <= k < |iv| { ctr[1 + k] := iv[k]; }
    ctr[15] := 1;
    SmallNumbers(q);
    assert ctr[1 + |iv|..] == Zeros(q - 1) + [1];
    assert ctr[..] == [ctr[0]] + ctr[1..1 + |iv|] + ctr[1 + |iv|..];
  }

  lemma {:induction false} SmallNumbers(q: nat)
    requires q >= 1
    ensures ToBytes(1, q) == Zeros(q - 1) + [1] && ToBytes(0, q) == Zeros(q) && ToBytes(0, 0) == []
  {
    if q > 1 { SmallNumbers(q - 1); }
    assert ToBytes(0, q) == ToBytes(0, q - 1) + [0];
    assert ToBytes(1, q) == ToBytes(0, q - 1) + [1];
    assert Zeros(q) == Zeros(q - 1) + [0];
  }

  /** Set the counter field to zero. */
  method ClearCounter(ctr: array<bv8>, iv: Bytes)
    requires ctr.Length == 16 && 7 <= |iv| <= 13 && exists i :: ctr[..] == CtrBlock(iv, i)
    modifies ctr
    ensures ctr[..] == CtrBlock(iv, 0)
  {
    var q := LengthBytes(|iv|);
    ghost var head := ctr[..16 - q];
    assert head == [(q - 1) as bv8] + iv;
    for i := 0 to q
      invariant ctr[..16 - q] == head && forall k :: 16 - i <= k < 16 ==> ctr[k] == 0
    {
      ctr[15 - i] := 0;
    }
    SmallNumbers(q);
    assert ctr[..] == head + Zeros(q);
  }

  datatype Status = Ok | BadInput | AuthFailed

  method EncryptAndTag(c: BlockCipher, length: nat, iv: Bytes, add: Bytes, input: array<bv8>,
                       output: array<bv8>, tag: array<bv8>, tagLen: nat) returns (ret: Status)
    requires Sound(c, 16) && length <= input.Length && length <= output.Length && tagLen <= tag.Length
    requires tag != input && tag != output && tagLen < 0x1_0000_0000
    modifies output, tag
    ensures ret == if Accepts(|iv|, |add|, tagLen, length) && tagLen != 0 then Ok else BadInput
    ensures ret == Ok ==>
      output[..] == Splice(old(output[..]), 0, CtrCrypt(c, iv, 1, old(input[..length])))
      && tag[..tagLen] == Tag(c, iv, add, old(input[..length]), tagLen as bv64)
  {
    hide CtrCrypt, Splice, Tag;
    if tagLen == 0 { return BadInput; }
    var ok := AuthCrypt(c, true, length, iv, add, input, output, tag, tagLen);
    ret := if ok then Ok else BadInput;
  }

  /** Compare without an early exit. */
  method CtMemcmp(a: Bytes, b: Bytes) returns (diff: bv8)
    requires |a| == |b|
    ensures diff == 0 <==> a == b
  {
    diff := 0;
    for i := 0 to |a|
      invariant diff == 0 <==> a[..i] == b[..i]
    {
      var was := diff;
      diff := diff | (a[i] ^ b[i]);
      DiffStep(was, a[i], b[i]);
      assert a[..i + 1] == a[..i] + [a[i]] && b[..i + 1] == b[..i] + [b[i]];
    }
    assert a[..|a|] == a && b[..|b|] == b;
  }

  lemma DiffStep(d: bv8, x: bv8, y: bv8)
    ensures d | (x ^ y) == 0 <==> d == 0 && x == y
  {}

  /** Decrypt, and wipe the output if the tag is wrong. */
  method AuthDecrypt(c: BlockCipher, length: nat, iv: Bytes, add: Bytes, input: array<bv8>,
                     output: array<bv8>, tag: Bytes, tagLen: nat) returns (ret: Status)
    requires Sound(c, 16) && length <= input.Length && length <= output.Length && tagLen <= |tag|
    requires tagLen < 0x1_0000_0000
    modifies output
    ensures ret == BadInput <==> !(Accepts(|iv|, |add|, tagLen, length) && tagLen != 0)
    ensures ret != BadInput ==>
      var p := CtrCrypt(c, iv, 1, old(input[..length]));
      (ret == Ok <==> tag[..tagLen] == Tag(c, iv, add, p, tagLen as bv64))
      && output[..] == Splice(old(output[..]), 0, if ret == Ok then p else Zeros(length))
  {
    hide CtrCrypt, Splice, Tag;
    if tagLen == 0 { return BadInput; }
    ghost var was, p := output[..], old(input[..length]);
    var check := new bv8[tagLen];
    var ok := AuthCrypt(c, false, length, iv, add, input, output, check, tagLen);
    if !ok { return BadInput; }
    var diff := CtMemcmp(tag[..tagLen], check[..tagLen]);
    if diff != 0 {
      SpliceOver(was, 0, CtrCrypt(c, iv, 1, p), Zeros(length));
      Store(output, 0, Zeros(length));
      return AuthFailed;
    }
    return Ok;
  }

  /** What encryption put out decrypts to the message and to the tag of the message, so
      AuthDecrypt accepts it and returns the message. */
  lemma DecryptInverts(c: BlockCipher, iv: Bytes, add: Bytes, m: Bytes, tagLen: nat)
    requires Sound(c, 16) && Accepts(|iv|, |add|, tagLen, |m|)
    ensures var x := CtrCrypt(c, iv, 1, m);
            |x| == |m| && CtrCrypt(c, iv, 1, x) == m && tagLen as bv64 <= 16
            && Tag(c, iv, add, CtrCrypt(c, iv, 1, x), tagLen as bv64) == Tag(c, iv, add, m, tagLen as bv64)
  {
    hide Tag, CtrCrypt, Pow2;
    TagBytes(tagLen);
    CtrTwice(c, iv, 1, m);
  }

  /** Sealing a message and opening the result with the tag as it was put out: accepted exactly
      when sealing was, and the message is back. Every buffer may be used in place. */
  method SealAndOpen(c: BlockCipher, length: nat, iv: Bytes, add: Bytes, input: array<bv8>, output: array<bv8>,
                     tag: array<bv8>, tagLen: nat, plain: array<bv8>) returns (seal: Status, open: Status)
    requires Sound(c, 16) && tagLen <= tag.Length && tagLen < 0x1_0000_0000
    requires length <= input.Length && length <= output.Length && length <= plain.Length
    requires tag != input && tag != output
    modifies output, tag, plain
    ensures seal == open == if Accepts(|iv|, |add|, tagLen, length) && tagLen != 0 then Ok else BadInput
    ensures seal == Ok ==> plain[..length] == old(input[..length])
  {
    hide CtrCrypt, Splice, Tag;
    ghost var m := input[..length];
    ghost var was := output[..];
    seal := EncryptAndTag(c, length, iv, add, input, output, tag, tagLen);
    if seal == Ok {
      DecryptInverts(c, iv, add, m, tagLen);
      SpliceFacts(was, 0, CtrCrypt(c, iv, 1, m));
      was := plain[..];
    }
    open := AuthDecrypt(c, length, iv, add, output, plain, tag[..], tagLen);
    if seal == Ok { SpliceFacts(was, 0, m); }
  }
}
